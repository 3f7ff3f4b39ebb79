/**
 * The command itself: run the check, then build the product with the
 * replication plan (left replica, tagged right replica, sort by tag,
 * positional merge) and register the result under its output name.
 */
module Cart {
  import opened Wrappers
  import opened Text
  import opened Host
  import opened Check
  import opened Replication

  /**
   * The new dataset and what is left on disk: the dataset's name, the file
   * it was opened from (OUTFILE), the rows that file holds, and the rows of
   * the dataset itself. The merge happens in the open dataset and nothing
   * saves it, so the file keeps only the VAR1 replica.
   */
  datatype Output<V> = Output(name: string, file: string, fileRows: seq<seq<V>>, rows: seq<seq<V>>)

  /**
   * What a run needs from its surroundings: a consistent engine, and VAR1
   * naming variables of the active dataset (the command's parser accepts
   * VAR1 only as a list of existing variables).
   */
  predicate CanRun<V>(h: HostState<V>, var1: seq<string>)
  {
    ConsistentHost(h) && LowerSet(var1) <= ActiveDataset(h).vars
  }

  /** The left term: the active dataset's cases restricted to VAR1. */
  function LeftRows<V>(h: HostState<V>, var1: seq<string>): (r: seq<seq<V>>)
    requires CanRun(h, var1)
    ensures |r| == |ActiveDataset(h).cases|
  {
    DatasetHasVars(ActiveDataset(h), var1);
    Project(ActiveDataset(h).cases, var1)
  }

  /** The right term: the right-hand dataset's cases restricted to VAR2. */
  function RightRows<V>(h: HostState<V>, input2: Option<string>, var2: seq<string>): (r: seq<seq<V>>)
    requires ConsistentHost(h)
    requires Given(input2) ==> Lower(input2.value) in h.datasets
    requires LowerSet(var2) <= RightDataset(h, input2).vars
    ensures |r| == |RightDataset(h, input2).cases|
  {
    DatasetHasVars(RightDataset(h, input2), var2);
    Project(RightDataset(h, input2).cases, var2)
  }

  /** DSNAME when given, otherwise the generated name. */
  function OutputName(dsname: Option<string>, generated: string): string
  {
    if dsname.None? then generated else dsname.value
  }

  /**
   * What the command promises: the check's error, or a dataset named by
   * DSNAME (or the generated name) holding the cartesian product of the
   * left and right terms in left-major order, opened from OUTFILE, which
   * holds each left row once per right row.
   */
  function Cartprod<V>(h: HostState<V>, var1: seq<string>, var2: seq<string>, outfile: string,
                       dsname: Option<string>, input2: Option<string>, generated: string): Result<Output<V>, CheckError>
    requires CanRun(h, var1)
  {
    var chk := Dscheck(h, input2, var1, var2);
    if chk.result.Err? then Err(chk.result.error)
    else
      var a, b := LeftRows(h, var1), RightRows(h, input2, var2);
      Ok(Output(OutputName(dsname, generated), outfile, ReplicateEach(a, |b|), Product(a, b)))
  }

  lemma PrefixHasVars<V>(cs: seq<Case<V>>, names: seq<string>, i: nat)
    requires AllHaveVars(cs, names) && i <= |cs|
    ensures AllHaveVars(cs[..i], names)
  {
    assert forall k :: 0 <= k < i ==> cs[..i][k] == cs[k];
  }

  lemma ProjectStep<V>(cs: seq<Case<V>>, names: seq<string>, i: nat)
    requires AllHaveVars(cs, names) && i < |cs|
    ensures AllHaveVars(cs[..i], names) && AllHaveVars(cs[..i + 1], names)
    ensures Project(cs[..i + 1], names) == Project(cs[..i], names) + [Keep(cs[i], names)]
  {
    PrefixHasVars(cs, names, i);
    PrefixHasVars(cs, names, i + 1);
    assert cs[..i + 1][..i] == cs[..i];
  }

  lemma ReplicateStep<T>(s: seq<T>, x: T, n: nat)
    ensures ReplicateEach(s + [x], n) == ReplicateEach(s, n) + Repeat(x, n)
  {
    assert (s + [x])[..|s|] == s;
  }

  lemma TaggedStep<V>(s: seq<seq<V>>, x: seq<V>, n: nat)
    ensures ReplicateTagged(s + [x], n) == ReplicateTagged(s, n) + TagRun(x, n)
  {
    assert (s + [x])[..|s|] == s;
  }

  /** Writing case i's copies extends the replica of cases[..i] to that of cases[..i + 1]. */
  lemma ReplicatedPrefix<V>(cases: seq<Case<V>>, names: seq<string>, i: nat, n: nat)
    requires AllHaveVars(cases, names) && i < |cases|
    ensures AllHaveVars(cases[..i], names) && AllHaveVars(cases[..i + 1], names)
    ensures ReplicateEach(Project(cases[..i + 1], names), n) ==
            ReplicateEach(Project(cases[..i], names), n) + Repeat(Keep(cases[i], names), n)
  {
    ProjectStep(cases, names, i);
    ReplicateStep(Project(cases[..i], names), Keep(cases[i], names), n);
  }

  lemma TaggedPrefix<V>(cases: seq<Case<V>>, names: seq<string>, i: nat, n: nat)
    requires AllHaveVars(cases, names) && i < |cases|
    ensures AllHaveVars(cases[..i], names) && AllHaveVars(cases[..i + 1], names)
    ensures ReplicateTagged(Project(cases[..i + 1], names), n) ==
            ReplicateTagged(Project(cases[..i], names), n) + TagRun(Keep(cases[i], names), n)
  {
    ProjectStep(cases, names, i);
    TaggedStep(Project(cases[..i], names), Keep(cases[i], names), n);
  }

  /** One case's iterations of `LOOP #i = 1 TO n. XSAVE ...`: n copies of its row. */
  method WriteCopies<V>(row: seq<V>, n: nat) returns (copies: seq<seq<V>>)
    ensures copies == Repeat(row, n)
  {
    copies := [];
    var j := 0;
    while j < n
      invariant 0 <= j <= n
      invariant copies == Repeat(row, j)
    {
      copies := copies + [row];
      j := j + 1;
    }
  }

  /** One case's iterations of `LOOP tag = 1 TO n. XSAVE ...`: its row tagged 1..n. */
  method WriteTagged<V>(row: seq<V>, n: nat) returns (tagged: seq<Tagged<V>>)
    ensures tagged == TagRun(row, n)
  {
    tagged := [];
    var tag := 1;
    while tag <= n
      invariant 1 <= tag <= n + 1
      invariant tagged == TagRun(row, tag - 1)
    {
      tagged := tagged + [Tagged(tag, row)];
      tag := tag + 1;
    }
  }

  /**
   * `LOOP #i = 1 TO n. XSAVE OUTFILE=outfile /KEEP=names. END LOOP.` run
   * over every case of a dataset: each case is written n times in a row.
   */
  method SaveReplicated<V>(cases: seq<Case<V>>, names: seq<string>, n: nat) returns (file: seq<seq<V>>)
    requires AllHaveVars(cases, names)
    ensures file == ReplicateEach(Project(cases, names), n)
  {
    file := [];
    var i := 0;
    while i < |cases|
      invariant 0 <= i <= |cases|
      invariant AllHaveVars(cases[..i], names)
      invariant file == ReplicateEach(Project(cases[..i], names), n)
    {
      var copies := WriteCopies(Keep(cases[i], names), n);
      file := file + copies;
      ReplicatedPrefix(cases, names, i, n);
      i := i + 1;
    }
    assert cases[..|cases|] == cases;
  }

  /**
   * `LOOP tag = 1 TO n. XSAVE OUTFILE=temp /KEEP tag names. END LOOP.` run
   * over every case of a dataset: each case is written n times, tagged 1..n.
   */
  method SaveTagged<V>(cases: seq<Case<V>>, names: seq<string>, n: nat) returns (temp: seq<Tagged<V>>)
    requires AllHaveVars(cases, names)
    ensures temp == ReplicateTagged(Project(cases, names), n)
  {
    temp := [];
    var i := 0;
    while i < |cases|
      invariant 0 <= i <= |cases|
      invariant AllHaveVars(cases[..i], names)
      invariant temp == ReplicateTagged(Project(cases[..i], names), n)
    {
      var tagged := WriteTagged(Keep(cases[i], names), n);
      temp := temp + tagged;
      TaggedPrefix(cases, names, i, n);
      i := i + 1;
    }
    assert cases[..|cases|] == cases;
  }

  /** One case's iterations of the fused loop: n plain copies and n tagged copies. */
  method WriteBoth<V>(row1: seq<V>, row2: seq<V>, n: nat) returns (copies: seq<seq<V>>, tagged: seq<Tagged<V>>)
    ensures copies == Repeat(row1, n) && tagged == TagRun(row2, n)
  {
    copies, tagged := [], [];
    var tag := 1;
    while tag <= n
      invariant 1 <= tag <= n + 1
      invariant copies == Repeat(row1, tag - 1) && tagged == TagRun(row2, tag - 1)
    {
      copies := copies + [row1];
      tagged := tagged + [Tagged(tag, row2)];
      tag := tag + 1;
    }
  }

  /**
   * The single pass used when both lists come from the active dataset:
   * under `LOOP tag = 1 TO n` each case is written to the output file
   * restricted to VAR1 and to the temporary file tagged and restricted to
   * VAR2.
   */
  method SaveBoth<V>(cases: seq<Case<V>>, var1: seq<string>, var2: seq<string>, n: nat)
    returns (file: seq<seq<V>>, temp: seq<Tagged<V>>)
    requires AllHaveVars(cases, var1) && AllHaveVars(cases, var2)
    ensures file == ReplicateEach(Project(cases, var1), n)
    ensures temp == ReplicateTagged(Project(cases, var2), n)
  {
    file, temp := [], [];
    var i := 0;
    while i < |cases|
      invariant 0 <= i <= |cases|
      invariant AllHaveVars(cases[..i], var1) && AllHaveVars(cases[..i], var2)
      invariant file == ReplicateEach(Project(cases[..i], var1), n)
      invariant temp == ReplicateTagged(Project(cases[..i], var2), n)
    {
      var copies, tagged := WriteBoth(Keep(cases[i], var1), Keep(cases[i], var2), n);
      file, temp := file + copies, temp + tagged;
      ReplicatedPrefix(cases, var1, i, n);
      TaggedPrefix(cases, var2, i, n);
      i := i + 1;
    }
    assert cases[..|cases|] == cases;
  }

  /**
   * The command: check, replicate (two passes with INPUT2, one without),
   * sort the tagged file by tag, merge the two files by position dropping
   * the tag, and name the result.
   */
  method Docart<V>(h: HostState<V>, var1: seq<string>, var2: seq<string>, outfile: string,
                   dsname: Option<string>, input2: Option<string>, generated: string)
    returns (r: Result<Output<V>, CheckError>)
    requires CanRun(h, var1)
    ensures r == Cartprod(h, var1, var2, outfile, dsname, input2, generated)
  {
    var chk := Dscheck(h, input2, var1, var2);
    if chk.result.Err? {
      return Err(chk.result.error);
    }
    var counts := chk.result.value;
    var mainName := OutputName(dsname, generated);
    // the check leaves the original dataset active
    var left := h.datasets[Lower(chk.active)];
    var right := RightDataset(h, input2);
    DatasetHasVars(left, var1);
    DatasetHasVars(right, var2);
    CountsAreSizes(h, input2, var1, var2);
    var file: seq<seq<V>>;
    var temp: seq<Tagged<V>>;
    if Given(input2) {
      file := SaveReplicated(left.cases, var1, counts.count2);
      // DATASET ACTIVATE input2
      temp := SaveTagged(right.cases, var2, counts.count1);
    } else {
      file, temp := SaveBoth(left.cases, var1, var2, counts.count1);
    }
    var a, b := LeftRows(h, var1), RightRows(h, input2, var2);
    ReplicateEachAt(a, |b|);
    ReplicateTaggedAt(b, |a|);
    SortIsPermutation(temp);
    // SORT CASES BY tag
    var sorted := SortByTag(temp);
    // MATCH FILES /FILE=* /FILE=temp /DROP=tag
    var rows := MergeByPosition(file, sorted);
    assert rows == Plan(a, b, |a|, |b|);
    PlanIsProduct(a, b);
    r := Ok(Output(mainName, outfile, file, rows));
  }

  /**
   * A successful run produces count1 · count2 rows; the pair of left case i
   * (restricted to VAR1) and right case j (restricted to VAR2) is row
   * i · count2 + j; the dataset is named DSNAME when one was given and was
   * opened from OUTFILE, whose row i · count2 + j is left case i alone.
   */
  lemma CartprodPair<V>(h: HostState<V>, var1: seq<string>, var2: seq<string>, outfile: string,
                        dsname: Option<string>, input2: Option<string>, generated: string, i: nat, j: nat)
    requires CanRun(h, var1)
    requires Cartprod(h, var1, var2, outfile, dsname, input2, generated).Ok?
    requires i < |ActiveDataset(h).cases|
    requires Given(input2) ==> Lower(input2.value) in h.datasets
    requires j < |RightDataset(h, input2).cases|
    ensures var out := Cartprod(h, var1, var2, outfile, dsname, input2, generated).value;
            var c := Dscheck(h, input2, var1, var2).result.value;
            var left, right := ActiveDataset(h).cases[i], RightDataset(h, input2).cases[j];
            c.count1 == |ActiveDataset(h).cases| && c.count2 == |RightDataset(h, input2).cases| &&
            |out.rows| == c.count1 * c.count2 &&
            HasVars(left, var1) && HasVars(right, var2) &&
            Pos(i, j, c.count2) < |out.rows| &&
            out.rows[Pos(i, j, c.count2)] == Keep(left, var1) + Keep(right, var2) &&
            out.name == OutputName(dsname, generated) &&
            out.file == outfile &&
            |out.fileRows| == c.count1 * c.count2 &&
            Pos(i, j, c.count2) < |out.fileRows| &&
            out.fileRows[Pos(i, j, c.count2)] == Keep(left, var1)
  {
    var a, b := LeftRows(h, var1), RightRows(h, input2, var2);
    CountsAreSizes(h, input2, var1, var2);
    ProductPoint(a, b, i, j);
    ReplicateEachPoint(a, |b|, i, j);
  }

  /**
   * OUTFILE does not hold the product: whenever the product has a row and
   * VAR2 names a variable, the file's rows lack the VAR2 values.
   */
  lemma OutfileIsNotProduct<V>(h: HostState<V>, var1: seq<string>, var2: seq<string>, outfile: string,
                               dsname: Option<string>, input2: Option<string>, generated: string)
    requires CanRun(h, var1) && var2 != []
    requires var r := Cartprod(h, var1, var2, outfile, dsname, input2, generated);
             r.Ok? && r.value.rows != []
    ensures var out := Cartprod(h, var1, var2, outfile, dsname, input2, generated).value;
            out.fileRows != out.rows
  {
    var a, b := LeftRows(h, var1), RightRows(h, input2, var2);
    ReplicaIsNotProduct(a, b);
  }

  /**
   * Leaving INPUT2 out and naming the active dataset as INPUT2 give the
   * same result whenever either succeeds: the fused single pass and the
   * two separate passes build the same product.
   */
  lemma InputOmittedSameAsNamed<V>(h: HostState<V>, var1: seq<string>, var2: seq<string>, outfile: string,
                                   dsname: Option<string>, generated: string)
    requires CanRun(h, var1) && h.active != ""
    ensures var without := Cartprod(h, var1, var2, outfile, dsname, None, generated);
            var named := Cartprod(h, var1, var2, outfile, dsname, Some(h.active), generated);
            (without.Ok? <==> named.Ok?) && (without.Ok? ==> without == named)
  {
    InputOmittedSameAsActive(h, var1, var2);
    LowerIdempotent(h.active);
  }
}
