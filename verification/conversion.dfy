/**
 The two stages together: what the lines written by `write_out` say about
 the rows `parse` read (parse_icd11mms_tab.py, lines 34-103).
 */
module Conversion {
  import opened Text
  import opened TitleDepth
  import opened Hierarchy
  import opened Edges

  /** A parsed node has no parent exactly when its row has depth 0. */
  lemma {:induction false} RootIffTop(rows: seq<string>, nodes: seq<Node>, i: nat)
    requires Faithful(rows, nodes) && i < |rows|
    ensures nodes[i].parent.NoParent? <==> LevelOf(rows[i]) == 0
  {
    assert RowParses(rows, i);
    assert nodes[i] == NodeFor(rows, i);
  }

  /** A parsed node's parent is the latest earlier row one level up: no row
      between the two has that depth. */
  lemma {:induction false} ParentIsLatest(rows: seq<string>, nodes: seq<Node>, i: nat)
    requires Faithful(rows, nodes) && i < |rows|
    requires nodes[i].parent.ParentAt?
    ensures ReadableBelow(rows, |rows|)
    ensures var j := nodes[i].parent.id;
      j < i && LevelOf(rows[j]) + 1 == LevelOf(rows[i])
    ensures forall k | nodes[i].parent.id < k < i :: LevelOf(rows[k]) + 1 != LevelOf(rows[i])
  {
    assert RowParses(rows, i);
    assert nodes[i] == NodeFor(rows, i);
  }

  /** Parsed parent links always name an earlier node, so they can be
      followed by `write_out` and never form a cycle. */
  lemma {:induction false} ParsedLinksPointBack(rows: seq<string>, nodes: seq<Node>)
    requires Faithful(rows, nodes)
    ensures Closed(nodes)
    ensures forall i | 0 <= i < |nodes| :: nodes[i].parent.ParentAt? ==> nodes[i].parent.id < i
  {
    forall i | 0 <= i < |nodes|
      ensures nodes[i].parent.ParentAt? ==> nodes[i].parent.id < i
    {
      if nodes[i].parent.ParentAt? {
        ParentIsLatest(rows, nodes, i);
      }
    }
  }

  /** The data rows whose title carries no depth marker dash. */
  function TopRows(rows: seq<string>): set<nat> {
    set i: nat | i < |rows| && HasFields(rows[i]) && LevelOf(rows[i]) == 0
  }

  /** One output line per data row, except the depth-0 rows. */
  lemma {:induction false} EdgeCount(rows: seq<string>, nodes: seq<Node>)
    requires Faithful(rows, nodes)
    ensures Closed(nodes)
    ensures |WriteOut(nodes)| == |rows| - |TopRows(rows)|
  {
    ParsedLinksPointBack(rows, nodes);
    forall i: nat | i < |nodes|
      ensures i in RootsBelow(nodes, |nodes|) <==> i in TopRows(rows)
    {
      RootIffTop(rows, nodes, i);
    }
    assert RootsBelow(nodes, |nodes|) == TopRows(rows);
  }

  /** The code and the cleaned title of a row hold no tab: both come from
      tab-split fields, and "NA" holds none either. */
  lemma {:induction false} TabFreeColumns(row: string)
    requires HasFields(row)
    ensures '\t' !in ShownCode(CodeOf(row)) && '\t' !in TitleOf(row)
  {
    var f := Fields(row)[TitleField];
    assert '\t' !in f;
    DecodeSuffix(f);
    assert ShownCode("") == "NA";
  }

  /** The output line for the m-th linked node splits back into the child's
      code and title, "is_a", and the parent's code and title, taken from
      their rows, with an empty code shown as "NA". */
  lemma {:induction false} OutputColumns(rows: seq<string>, nodes: seq<Node>, m: nat)
    requires Faithful(rows, nodes) && Closed(nodes)
    requires m < |WriteOut(nodes)|
    ensures
      var i := LinkedIds(nodes, |nodes|)[m];
      var j := nodes[i].parent.id;
      var line := WriteOut(nodes)[m];
      Split(line[..|line| - 1], '\t')
        == [ShownCode(CodeOf(rows[i])), TitleOf(rows[i]), "is_a", ShownCode(CodeOf(rows[j])), TitleOf(rows[j])]
  {
    var rs := Emit(nodes, |nodes|);
    var i := LinkedIds(nodes, |nodes|)[m];
    var j := nodes[i].parent.id;
    var r := rs[m];
    assert r == RelationOf(nodes, i);
    assert nodes[i] == NodeFor(rows, i) && nodes[j] == NodeFor(rows, j);
    assert r == Relation(ShownCode(CodeOf(rows[i])), TitleOf(rows[i]), ShownCode(CodeOf(rows[j])), TitleOf(rows[j]));
    TabFreeColumns(rows[i]);
    TabFreeColumns(rows[j]);
    FormatRoundTrip(r);
  }
}
