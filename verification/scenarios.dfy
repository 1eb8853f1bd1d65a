/**
 Small concrete inputs and what the converter does with them: a single edge,
 a chain of three depths, two siblings, a row that attaches to a stale
 cursor entry from an earlier branch, and a row that skips a depth.
 */
module Scenarios {
  import opened Results
  import opened Text
  import opened TitleDepth
  import opened Hierarchy
  import opened Edges

  /** A data row to build: its code, its depth and its title without marker. */
  datatype Entry = Entry(code: string, level: nat, title: string)

  /** The row for an entry: fields 0, 1 and 3 empty, the code in field 2,
      the indented title in field 4, and the line's newline in field 5. */
  function RowText(e: Entry): string {
    Join(["", "", e.code, "", Indent(e.level, e.title), "\n"], '\t')
  }

  function Rows(es: seq<Entry>): seq<string> {
    seq(|es|, i requires 0 <= i < |es| => RowText(es[i]))
  }

  /** An entry whose code and title hold no tab and whose title needs no stripping. */
  predicate Plain(e: Entry) {
    '\t' !in e.code && '\t' !in e.title && Clean(e.title)
  }

  /** The fields of an entry's row. */
  lemma RowFields(e: Entry)
    requires Plain(e)
    ensures Fields(RowText(e)) == ["", "", e.code, "", Indent(e.level, e.title), "\n"]
  {
    var raw := Indent(e.level, e.title);
    assert '\t' !in raw by {
      assert raw == seq(e.level, _ => '-') + e.title;
    }
    SplitJoin(["", "", e.code, "", raw, "\n"], '\t');
  }

  /** A plain entry's row reads back as the entry. */
  lemma RowReads(e: Entry)
    requires Plain(e)
    ensures HasFields(RowText(e))
    ensures CodeOf(RowText(e)) == e.code
    ensures LevelOf(RowText(e)) == e.level
    ensures TitleOf(RowText(e)) == e.title
  {
    RowFields(e);
    DecodeIndent(e.level, e.title);
  }

  predicate AllPlain(es: seq<Entry>) {
    forall i | 0 <= i < |es| :: Plain(es[i])
  }

  /** Rows built from plain entries read back as those entries. */
  lemma RowsRead(es: seq<Entry>)
    requires AllPlain(es)
    ensures |Rows(es)| == |es|
    ensures ReadableBelow(Rows(es), |es|)
    ensures forall i | 0 <= i < |es| ::
      HasFields(Rows(es)[i]) && CodeOf(Rows(es)[i]) == es[i].code
      && LevelOf(Rows(es)[i]) == es[i].level && TitleOf(Rows(es)[i]) == es[i].title
  {
    forall i | 0 <= i < |es|
      ensures HasFields(Rows(es)[i]) && CodeOf(Rows(es)[i]) == es[i].code
      ensures LevelOf(Rows(es)[i]) == es[i].level && TitleOf(Rows(es)[i]) == es[i].title
    {
      RowReads(es[i]);
    }
  }

  /** The depths of the entries. */
  function LevelSeq(es: seq<Entry>): seq<nat> {
    seq(|es|, i requires 0 <= i < |es| => es[i].level)
  }

  /** `nodes` carries the entries' codes and titles, and each node's parent
      link is the one the depths in front of it give. */
  predicate Expected(es: seq<Entry>, nodes: seq<Node>) {
    && |nodes| == |es|
    && forall i | 0 <= i < |es| ::
      && nodes[i].code == es[i].code
      && nodes[i].title == es[i].title
      && ParentOf(LevelSeq(es)[..i], es[i].level) == Some(nodes[i].parent)
  }

  /** Rows built from plain entries parse into the expected nodes. */
  lemma FaithfulFromEntries(es: seq<Entry>, nodes: seq<Node>)
    requires AllPlain(es)
    requires Expected(es, nodes)
    ensures Faithful(Rows(es), nodes)
  {
    var rows := Rows(es);
    RowsRead(es);
    forall i | 0 <= i < |es|
      ensures RowParses(rows, i) && nodes[i] == NodeFor(rows, i)
    {
      assert LevelsBelow(rows, i) == LevelSeq(es)[..i];
    }
  }

  /** Row i of plain entries parses exactly when the depths in front of it
      give it a parent. */
  lemma RowParsesFromEntries(es: seq<Entry>, i: nat)
    requires AllPlain(es) && i < |es|
    ensures ReadableBelow(Rows(es), i)
    ensures RowParses(Rows(es), i) <==> ParentOf(LevelSeq(es)[..i], es[i].level).Some?
  {
    RowsRead(es);
    assert LevelsBelow(Rows(es), i) == LevelSeq(es)[..i];
  }

  /** A root "Foo" with code R, then a depth-1 row "Bar" with code X1. */
  const singleEntries := [Entry("R", 0, "Foo"), Entry("X1", 1, "Bar")]
  const singleNodes := [Node("R", "Foo", NoParent), Node("X1", "Bar", ParentAt(0))]

  lemma SingleEdgePlain()
    ensures AllPlain(singleEntries)
  {
  }

  lemma SingleEdgeExpected()
    ensures Expected(singleEntries, singleNodes)
  {
    assert LevelSeq(singleEntries) == [0, 1];
    assert LevelSeq(singleEntries)[..1] == [0];
  }

  /** The depth-1 node hangs under the root. */
  lemma SingleEdgeParsed()
    ensures Faithful(Rows(singleEntries), singleNodes)
  {
    SingleEdgePlain();
    SingleEdgeExpected();
    FaithfulFromEntries(singleEntries, singleNodes);
  }

  /** Exactly one line is written, from X1 to R. */
  lemma SingleEdgeRelations()
    ensures Closed(singleNodes)
    ensures Emit(singleNodes, |singleNodes|) == [Relation("X1", "Bar", "R", "Foo")]
  {
    assert Emit(singleNodes, 1) == [];
  }

  lemma SingleEdgeOutput()
    ensures Closed(singleNodes)
    ensures WriteOut(singleNodes) == ["X1\tBar\tis_a\tR\tFoo\n"]
  {
    SingleEdgeRelations();
    LineX1R();
  }

  /** The lines written for two records. */
  lemma {:induction false} LinesOfTwo(nodes: seq<Node>, r0: Relation, r1: Relation, line0: string, line1: string)
    requires Closed(nodes) && Emit(nodes, |nodes|) == [r0, r1]
    requires FormatLine(r0) == line0 && FormatLine(r1) == line1
    ensures WriteOut(nodes) == [line0, line1]
  {
  }

  /** The rendered lines of the scenarios below. */
  lemma LineX1R()
    ensures FormatLine(Relation("X1", "Bar", "R", "Foo")) == "X1\tBar\tis_a\tR\tFoo\n"
  {
  }

  lemma LineX1NA()
    ensures FormatLine(Relation("X1", "Bar", "NA", "Foo")) == "X1\tBar\tis_a\tNA\tFoo\n"
  {
  }

  lemma LineBA()
    ensures FormatLine(Relation("B", "b", "A", "a")) == "B\tb\tis_a\tA\ta\n"
  {
  }

  lemma LineCB()
    ensures FormatLine(Relation("C", "c", "B", "b")) == "C\tc\tis_a\tB\tb\n"
  {
  }

  lemma LineCA()
    ensures FormatLine(Relation("C", "c", "A", "a")) == "C\tc\tis_a\tA\ta\n"
  {
  }

  /** The same input with an empty root code. */
  const emptyCodeEntries := [Entry("", 0, "Foo"), Entry("X1", 1, "Bar")]
  const emptyCodeNodes := [Node("", "Foo", NoParent), Node("X1", "Bar", ParentAt(0))]

  lemma EmptyRootCodePlain()
    ensures AllPlain(emptyCodeEntries)
  {
  }

  lemma EmptyRootCodeExpected()
    ensures Expected(emptyCodeEntries, emptyCodeNodes)
  {
    assert LevelSeq(emptyCodeEntries) == [0, 1];
    assert LevelSeq(emptyCodeEntries)[..1] == [0];
  }

  lemma EmptyRootCodeParsed()
    ensures Faithful(Rows(emptyCodeEntries), emptyCodeNodes)
  {
    EmptyRootCodePlain();
    EmptyRootCodeExpected();
    FaithfulFromEntries(emptyCodeEntries, emptyCodeNodes);
  }

  /** The empty root code is written as "NA" on the parent side. */
  lemma EmptyRootCodeRelations()
    ensures Closed(emptyCodeNodes)
    ensures Emit(emptyCodeNodes, |emptyCodeNodes|) == [Relation("X1", "Bar", "NA", "Foo")]
  {
    assert Emit(emptyCodeNodes, 1) == [];
  }

  lemma EmptyRootCodeOutput()
    ensures Closed(emptyCodeNodes)
    ensures WriteOut(emptyCodeNodes) == ["X1\tBar\tis_a\tNA\tFoo\n"]
  {
    EmptyRootCodeRelations();
    LineX1NA();
  }

  /** Depths 0, 1, 2. */
  const chainEntries := [Entry("A", 0, "a"), Entry("B", 1, "b"), Entry("C", 2, "c")]
  const chainNodes := [Node("A", "a", NoParent), Node("B", "b", ParentAt(0)), Node("C", "c", ParentAt(1))]

  lemma ChainPlain()
    ensures AllPlain(chainEntries)
  {
  }

  lemma ChainExpected()
    ensures Expected(chainEntries, chainNodes)
  {
    assert LevelSeq(chainEntries) == [0, 1, 2];
    assert LevelSeq(chainEntries)[..1] == [0];
    assert LevelSeq(chainEntries)[..2] == [0, 1];
  }

  /** The depth-2 row hangs under the depth-1 row, not under the root. */
  lemma ChainParsed()
    ensures Faithful(Rows(chainEntries), chainNodes)
  {
    ChainPlain();
    ChainExpected();
    FaithfulFromEntries(chainEntries, chainNodes);
  }

  /** Two lines are written, one per non-root row. */
  lemma ChainRelations()
    ensures Closed(chainNodes)
    ensures Emit(chainNodes, |chainNodes|) == [Relation("B", "b", "A", "a"), Relation("C", "c", "B", "b")]
  {
    assert Emit(chainNodes, 1) == [];
    assert Emit(chainNodes, 2) == [Relation("B", "b", "A", "a")];
  }

  lemma ChainOutput()
    ensures Closed(chainNodes)
    ensures WriteOut(chainNodes) == ["B\tb\tis_a\tA\ta\n", "C\tc\tis_a\tB\tb\n"]
  {
    ChainRelations();
    LineBA();
    LineCB();
    LinesOfTwo(chainNodes, Relation("B", "b", "A", "a"), Relation("C", "c", "B", "b"), "B\tb\tis_a\tA\ta\n", "C\tc\tis_a\tB\tb\n");
  }

  /** Depths 0, 1, 1: two siblings. */
  const siblingEntries := [Entry("A", 0, "a"), Entry("B", 1, "b"), Entry("C", 1, "c")]
  const siblingNodes := [Node("A", "a", NoParent), Node("B", "b", ParentAt(0)), Node("C", "c", ParentAt(0))]

  lemma SiblingsPlain()
    ensures AllPlain(siblingEntries)
  {
  }

  lemma SiblingsExpected()
    ensures Expected(siblingEntries, siblingNodes)
  {
    assert LevelSeq(siblingEntries) == [0, 1, 1];
    assert LevelSeq(siblingEntries)[..1] == [0];
    assert LevelSeq(siblingEntries)[..2] == [0, 1];
  }

  /** Both depth-1 rows point at the same root. */
  lemma SiblingsParsed()
    ensures Faithful(Rows(siblingEntries), siblingNodes)
  {
    SiblingsPlain();
    SiblingsExpected();
    FaithfulFromEntries(siblingEntries, siblingNodes);
  }

  lemma SiblingsRelations()
    ensures Closed(siblingNodes)
    ensures Emit(siblingNodes, |siblingNodes|) == [Relation("B", "b", "A", "a"), Relation("C", "c", "A", "a")]
  {
    assert Emit(siblingNodes, 1) == [];
    assert Emit(siblingNodes, 2) == [Relation("B", "b", "A", "a")];
  }

  lemma SiblingsOutput()
    ensures Closed(siblingNodes)
    ensures WriteOut(siblingNodes) == ["B\tb\tis_a\tA\ta\n", "C\tc\tis_a\tA\ta\n"]
  {
    SiblingsRelations();
    LineBA();
    LineCA();
    LinesOfTwo(siblingNodes, Relation("B", "b", "A", "a"), Relation("C", "c", "A", "a"), "B\tb\tis_a\tA\ta\n", "C\tc\tis_a\tA\ta\n");
  }

  /** Depths 0, 1, 2, 0, 2. */
  const staleEntries := [Entry("A", 0, "a"), Entry("B", 1, "b"), Entry("C", 2, "c"), Entry("D", 0, "d"), Entry("E", 2, "e")]
  const staleNodes := [
    Node("A", "a", NoParent), Node("B", "b", ParentAt(0)), Node("C", "c", ParentAt(1)),
    Node("D", "d", NoParent), Node("E", "e", ParentAt(1))]

  lemma StaleCursorPlain()
    ensures AllPlain(staleEntries)
  {
  }

  lemma StaleCursorExpected()
    ensures Expected(staleEntries, staleNodes)
  {
    assert LevelSeq(staleEntries) == [0, 1, 2, 0, 2];
    assert LevelSeq(staleEntries)[..1] == [0];
    assert LevelSeq(staleEntries)[..2] == [0, 1];
    assert LevelSeq(staleEntries)[..3] == [0, 1, 2];
    assert LevelSeq(staleEntries)[..4] == [0, 1, 2, 0];
  }

  /** The last row has no depth-1 row in its own branch, yet parsing does
      not fail: the cursor still holds node 1 of the first branch at depth
      1, so the last row becomes a child of node 1. */
  lemma StaleCursorParsed()
    ensures Faithful(Rows(staleEntries), staleNodes)
  {
    StaleCursorPlain();
    StaleCursorExpected();
    FaithfulFromEntries(staleEntries, staleNodes);
  }

  /** A depth-2 row straight after a root has no depth-1 row to hang under:
      parsing stops at that row. */
  const skippedEntries := [Entry("A", 0, "a"), Entry("B", 2, "b")]

  lemma SkippedDepth()
    ensures ReadableBelow(Rows(skippedEntries), 1)
    ensures GoodPrefix(Rows(skippedEntries), 1)
    ensures !RowParses(Rows(skippedEntries), 1)
  {
    assert AllPlain(skippedEntries);
    assert LevelSeq(skippedEntries) == [0, 2];
    assert LevelSeq(skippedEntries)[..1] == [0];
    RowParsesFromEntries(skippedEntries, 0);
    RowParsesFromEntries(skippedEntries, 1);
  }

  /** The whole parser on a header line followed by the stale-cursor rows
      returns exactly the nodes above. */
  method ParseStaleCursor() returns (r: Result<seq<Node>, ParseError>)
    ensures r == Success(staleNodes)
  {
    var lines := ["header\n"] + Rows(staleEntries);
    assert DataRows(lines) == Rows(staleEntries);
    StaleCursorParsed();
    r := Parse(lines);
    assert GoodPrefix(Rows(staleEntries), |Rows(staleEntries)|);
    FaithfulUnique(Rows(staleEntries), r.value, staleNodes);
  }

  /** The whole parser on a header line followed by the skipped-depth rows
      stops at data row 1, whose lookup for depth 1 fails. */
  method ParseSkippedDepth() returns (r: Result<seq<Node>, ParseError>)
    ensures r == Failure(MissingLevel(1, 1))
  {
    var rows := Rows(skippedEntries);
    var lines := ["header\n"] + rows;
    assert DataRows(lines) == rows;
    SkippedRow();
    r := Parse(lines);
    LookupFailure(rows, 1, r);
  }

  /** Data row 1 of the skipped-depth input has its fields and depth 2, and
      it is the first row that does not parse. */
  lemma SkippedRow()
    ensures |Rows(skippedEntries)| == 2
    ensures GoodPrefix(Rows(skippedEntries), 1) && !RowParses(Rows(skippedEntries), 1)
    ensures HasFields(Rows(skippedEntries)[1]) && LevelOf(Rows(skippedEntries)[1]) == 2
  {
    SkippedDepth();
    SkippedRowReads();
  }

  lemma SkippedRowReads()
    ensures |Rows(skippedEntries)| == 2
    ensures HasFields(Rows(skippedEntries)[1]) && LevelOf(Rows(skippedEntries)[1]) == 2
  {
    var e := skippedEntries[1];
    assert Plain(e);
    RowReads(e);
  }

  /** When the last data row is the first that does not parse, and it has
      its fields, a parse result that meets the contract of `Parse` is the
      lookup failure at that row. */
  lemma LookupFailure(rows: seq<string>, k: nat, r: Result<seq<Node>, ParseError>)
    requires k + 1 == |rows| && GoodPrefix(rows, k) && !RowParses(rows, k) && HasFields(rows[k])
    requires r.Success? <==> GoodPrefix(rows, |rows|)
    requires r.Failure? ==>
      && r.error.row < |rows|
      && GoodPrefix(rows, r.error.row)
      && !RowParses(rows, r.error.row)
      && (r.error.MissingField? ==> !HasFields(rows[r.error.row]))
      && (r.error.MissingLevel? ==> HasFields(rows[r.error.row]) && LevelOf(rows[r.error.row]) == r.error.key + 1)
    ensures r == Failure(MissingLevel(k, LevelOf(rows[k]) - 1))
  {
    assert !GoodPrefix(rows, |rows|);
    FirstFailureUnique(rows, r.error.row, k);
  }
}
