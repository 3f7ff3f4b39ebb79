/**
 * The message table the command accumulates before a procedure state
 * exists: a row count, the row labels and the flat list of cell values.
 */
module Pivot {
  import opened Wrappers
  import opened Text

  /**
   * The label a new row gets: the one given, or else the new row count
   * written in decimal, which reads back as that count.
   */
  function RowLabel(given: Option<string>, count: nat): (s: string)
    ensures given.Some? ==> s == given.value
    ensures given.None? ==> (forall i :: 0 <= i < |s| ==> IsDigit(s[i])) && ParseDecimal(s) == count
  {
    if given.None? then
      ParseNatToString(count);
      NatToString(count)
    else given.value
  }

  class NonProcPivotTable<V> {
    var omsSubtype: string
    var outlineTitle: string
    var tableTitle: string
    var caption: string
    var rowDim: string
    var colDim: string
    var columnLabels: seq<string>
    var procName: string
    var rowLabels: seq<string>
    var columnValues: seq<V>
    var rowCount: nat

    /** One label per row added. */
    ghost predicate Valid()
      reads this
    {
      |rowLabels| == rowCount
    }

    constructor (omsSubtype: string, outlineTitle: string := "", tableTitle: string := "",
                 caption: string := "", rowDim: string := "", colDim: string := "",
                 columnLabels: seq<string> := [], procName: string := "Messages")
      ensures Valid()
      ensures this.omsSubtype == omsSubtype && this.outlineTitle == outlineTitle
      ensures this.tableTitle == tableTitle && this.caption == caption
      ensures this.rowDim == rowDim && this.colDim == colDim
      ensures this.columnLabels == columnLabels && this.procName == procName
      ensures rowCount == 0 && rowLabels == [] && columnValues == []
    {
      this.omsSubtype := omsSubtype;
      this.outlineTitle := outlineTitle;
      this.tableTitle := tableTitle;
      this.caption := caption;
      this.rowDim := rowDim;
      this.colDim := colDim;
      this.columnLabels := columnLabels;
      this.procName := procName;
      rowLabels := [];
      columnValues := [];
      rowCount := 0;
    }

    /**
     * Append a row: the count goes up by one, the row's label is the one
     * given or the new count, and its values (none when absent) are added
     * after the values already held. Nothing else changes.
     */
    method AddRow(rowLabel: Option<string>, cvalues: Option<seq<V>>)
      requires Valid()
      modifies this`rowCount, this`rowLabels, this`columnValues
      ensures Valid()
      ensures rowCount == old(rowCount) + 1
      ensures rowLabels == old(rowLabels) + [RowLabel(rowLabel, rowCount)]
      ensures columnValues == old(columnValues) + (if cvalues.None? then [] else cvalues.value)
    {
      var values := if cvalues.None? then [] else cvalues.value;
      rowCount := rowCount + 1;
      if rowLabel.None? {
        rowLabels := rowLabels + [NatToString(rowCount)];
      } else {
        rowLabels := rowLabels + [rowLabel.value];
      }
      columnValues := columnValues + values;
    }
  }

  /** Two rows added without labels to a new table are labelled "1" and "2". */
  method DefaultLabels()
  {
    var t := new NonProcPivotTable<int>("Warnings");
    t.AddRow(None, Some([7]));
    t.AddRow(None, None);
    assert t.rowCount == 2;
    assert NatToString(1) == "1" && NatToString(2) == "2";
    assert t.rowLabels == ["1", "2"];
    assert t.columnValues == [7];
    assert t.procName == "Messages";
  }
}
