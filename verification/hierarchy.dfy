/**
 Tree reconstruction (parse_icd11mms_tab.py, `parse`, lines 34-80).

 The header line is dropped, every remaining line becomes one node, and node
 ids 0, 1, 2, ... follow the row order. A table from depth to the id of the
 most recent node at that depth links every row of depth L > 0 to the latest
 earlier row of depth L - 1. The table is never pruned: an entry for a
 deeper level stays in place after a shallower row is seen.
 */
module Hierarchy {
  import opened Results
  import opened Text
  import opened TitleDepth

  /** Zero-based positions of the fields the parser reads from a row. */
  const CodeField := 2
  const TitleField := 4

  /** The parent of a node: none for a depth-0 row (the source stores the
      string "None"), otherwise the id of the parent node. */
  datatype ParentLink = NoParent | ParentAt(id: nat)

  /** One concept: its code, its title with the depth marker removed, and
      its parent link. A node's id is its position in the node sequence. */
  datatype Node = Node(code: string, title: string, parent: ParentLink)

  /** Why parsing stops: a row with too few tab-separated fields (the
      IndexError of lines 49-50), or a row of depth L > 0 for which the
      table holds no entry at key L - 1 (the KeyError of line 72). */
  datatype ParseError =
    | MissingField(row: nat, fieldCount: nat)
    | MissingLevel(row: nat, key: nat)

  /** The data rows of the file: every line after the header. The header
      and the data rows together are the whole file, and a file without
      even a header has no data rows. */
  function DataRows(lines: seq<string>): (rows: seq<string>)
    ensures |lines| > 0 ==> lines == [lines[0]] + rows
    ensures |lines| == 0 ==> rows == []
  {
    if |lines| == 0 then [] else lines[1..]
  }

  /** The tab-separated fields of a row (line 48). */
  function Fields(row: string): seq<string> {
    Split(row, '\t')
  }

  predicate HasFields(row: string) {
    |Fields(row)| > TitleField
  }

  /** Every row in front of row k carries the code and the title field. */
  predicate ReadableBelow(rows: seq<string>, k: nat) {
    forall i | 0 <= i < k && i < |rows| :: HasFields(rows[i])
  }

  function CodeOf(row: string): string
    requires HasFields(row)
  {
    Fields(row)[CodeField]
  }

  function TitleOf(row: string): string
    requires HasFields(row)
  {
    Decode(Fields(row)[TitleField]).title
  }

  function LevelOf(row: string): nat
    requires HasFields(row)
  {
    Decode(Fields(row)[TitleField]).level
  }

  /** The decoded depths of the rows in front of row k. */
  function LevelsBelow(rows: seq<string>, k: nat): (levels: seq<nat>)
    requires k <= |rows| && ReadableBelow(rows, k)
    ensures |levels| == k
    ensures forall i | 0 <= i < k :: levels[i] == LevelOf(rows[i])
  {
    if k == 0 then [] else LevelsBelow(rows, k - 1) + [LevelOf(rows[k - 1])]
  }

  /** The position of the latest entry of `levels` equal to `level`, if any:
      the largest j < |levels| with levels[j] == level. */
  function LatestAt(levels: seq<nat>, level: nat): (r: Option<nat>)
    ensures r.Some? ==> r.value < |levels| && levels[r.value] == level
    ensures r.Some? ==> forall k | r.value < k < |levels| :: levels[k] != level
    ensures r.None? <==> forall k | 0 <= k < |levels| :: levels[k] != level
  {
    if |levels| == 0 then None
    else if levels[|levels| - 1] == level then Some(|levels| - 1)
    else LatestAt(levels[..|levels| - 1], level)
  }

  /** The parent a row of depth `level` gets when `before` are the depths of
      the rows in front of it; None when the lookup fails. */
  function ParentOf(before: seq<nat>, level: nat): (r: Option<ParentLink>)
    ensures r == Some(NoParent) <==> level == 0
    ensures r.None? <==> level > 0 && forall j | 0 <= j < |before| :: before[j] != level - 1
    ensures r.Some? && r.value.ParentAt? ==>
      && r.value.id < |before|
      && before[r.value.id] == level - 1
      && forall k | r.value.id < k < |before| :: before[k] != level - 1
  {
    if level == 0 then Some(NoParent)
    else match LatestAt(before, level - 1)
      case None => None
      case Some(j) => Some(ParentAt(j))
  }

  /** Row i of `rows` becomes a node: it has its fields and its parent lookup succeeds. */
  predicate RowParses(rows: seq<string>, i: nat)
    requires i < |rows| && ReadableBelow(rows, i)
  {
    HasFields(rows[i]) && ParentOf(LevelsBelow(rows, i), LevelOf(rows[i])).Some?
  }

  /** The first k rows all become nodes. */
  predicate GoodPrefix(rows: seq<string>, k: nat)
    requires k <= |rows|
  {
    ReadableBelow(rows, k) && forall i | 0 <= i < k :: RowParses(rows, i)
  }

  /** The node row i becomes. */
  function NodeFor(rows: seq<string>, i: nat): Node
    requires i < |rows| && ReadableBelow(rows, i) && RowParses(rows, i)
  {
    Node(CodeOf(rows[i]), TitleOf(rows[i]), ParentOf(LevelsBelow(rows, i), LevelOf(rows[i])).value)
  }

  /** `nodes` holds one node for each of the first k rows, node i built from row i. */
  predicate NodesBelow(rows: seq<string>, nodes: seq<Node>, k: nat)
    requires k <= |rows|
  {
    && GoodPrefix(rows, k)
    && |nodes| == k
    && forall i | 0 <= i < k :: nodes[i] == NodeFor(rows, i)
  }

  /** `nodes` holds exactly one node per row, node i built from row i. */
  predicate Faithful(rows: seq<string>, nodes: seq<Node>) {
    |nodes| == |rows| && NodesBelow(rows, nodes, |rows|)
  }

  /** The cursor table read as a partial function. */
  function Lookup(cursor: map<nat, nat>, level: nat): Option<nat> {
    if level in cursor then Some(cursor[level]) else None
  }

  /** Appending a depth makes its position the latest one at that depth and
      leaves every other depth's latest position alone. */
  lemma LatestAtSnoc(levels: seq<nat>, x: nat, level: nat)
    ensures LatestAt(levels + [x], level) == if x == level then Some(|levels|) else LatestAt(levels, level)
  {
    assert (levels + [x])[..|levels|] == levels;
  }

  /** Overwriting the cursor entry of the new row's depth keeps the table
      equal to the latest position at every depth. */
  lemma CursorStep(levels: seq<nat>, cursor: map<nat, nat>, level: nat)
    requires forall l: nat :: LatestAt(levels, l) == Lookup(cursor, l)
    ensures forall l: nat :: LatestAt(levels + [level], l) == Lookup(cursor[level := |levels|], l)
  {
    forall l: nat
      ensures LatestAt(levels + [level], l) == Lookup(cursor[level := |levels|], l)
    {
      LatestAtSnoc(levels, level, l);
    }
  }

  /** The depths of one more row extend the depths of the rows before it. */
  lemma LevelsStep(rows: seq<string>, id: nat)
    requires id < |rows| && ReadableBelow(rows, id) && HasFields(rows[id])
    ensures ReadableBelow(rows, id + 1)
    ensures LevelsBelow(rows, id + 1) == LevelsBelow(rows, id) + [LevelOf(rows[id])]
  {
  }

  /** A good prefix followed by a row that parses is a longer good prefix. */
  lemma GoodPrefixStep(rows: seq<string>, id: nat)
    requires id < |rows| && GoodPrefix(rows, id) && RowParses(rows, id)
    ensures GoodPrefix(rows, id + 1)
  {
    LevelsStep(rows, id);
  }

  /** A node built from the next row extends the nodes of the rows before it. */
  lemma NodesStep(rows: seq<string>, nodes: seq<Node>, id: nat, node: Node)
    requires id < |rows| && NodesBelow(rows, nodes, id)
    requires RowParses(rows, id) && node == NodeFor(rows, id)
    ensures NodesBelow(rows, nodes + [node], id + 1)
  {
    GoodPrefixStep(rows, id);
    var extended := nodes + [node];
    forall i | 0 <= i < id + 1
      ensures extended[i] == NodeFor(rows, i)
    {
      if i < id {
        assert extended[i] == nodes[i];
      }
    }
  }

  /** The rows decide the nodes: two node sequences faithful to the same
      rows are equal. */
  lemma {:induction false} FaithfulUnique(rows: seq<string>, a: seq<Node>, b: seq<Node>)
    requires Faithful(rows, a) && Faithful(rows, b)
    ensures a == b
  {
    forall i | 0 <= i < |rows|
      ensures a[i] == b[i]
    {
      assert a[i] == NodeFor(rows, i);
    }
  }

  /** The rows decide the failing row: only one row can be the first that
      does not parse. */
  lemma {:induction false} FirstFailureUnique(rows: seq<string>, k: nat, k': nat)
    requires k < |rows| && GoodPrefix(rows, k) && !RowParses(rows, k)
    requires k' < |rows| && GoodPrefix(rows, k') && !RowParses(rows, k')
    ensures k == k'
  {
  }

  /** The parser of lines 34-80. It fails at the first row that has too few
      fields or whose parent lookup fails; otherwise it returns one node per
      data row, each linked to the latest earlier row one level up. */
  method Parse(lines: seq<string>) returns (r: Result<seq<Node>, ParseError>)
    ensures r.Success? <==> GoodPrefix(DataRows(lines), |DataRows(lines)|)
    ensures r.Success? ==> Faithful(DataRows(lines), r.value)
    ensures r.Failure? ==>
      var rows := DataRows(lines);
      var k := r.error.row;
      && k < |rows|
      && GoodPrefix(rows, k)
      && !RowParses(rows, k)
      && (r.error.MissingField? ==> !HasFields(rows[k]) && r.error.fieldCount == |Fields(rows[k])|)
      && (r.error.MissingLevel? ==> HasFields(rows[k]) && LevelOf(rows[k]) == r.error.key + 1)
  {
    var rows := DataRows(lines);
    var nodes: seq<Node> := [];
    var cursor: map<nat, nat> := map[];
    ghost var levels: seq<nat> := [];
    for id := 0 to |rows|
      invariant NodesBelow(rows, nodes, id)
      invariant levels == LevelsBelow(rows, id)
      invariant forall level: nat :: LatestAt(levels, level) == Lookup(cursor, level)
    {
      var fields := Split(rows[id], '\t');
      if |fields| <= TitleField {
        return Failure(MissingField(id, |fields|));
      }
      var code := fields[CodeField];
      var level, title := ScanTitle(fields[TitleField]);
      assert level == LevelOf(rows[id]);
      var parent: ParentLink;
      if level == 0 {
        parent := NoParent;
      } else if level - 1 in cursor {
        parent := ParentAt(cursor[level - 1]);
      } else {
        assert Lookup(cursor, level - 1) == None;
        assert !RowParses(rows, id);
        return Failure(MissingLevel(id, level - 1));
      }
      assert Some(parent) == ParentOf(levels, level);
      assert RowParses(rows, id);
      var node := Node(code, title, parent);
      assert node == NodeFor(rows, id);
      NodesStep(rows, nodes, id, node);
      LevelsStep(rows, id);
      CursorStep(levels, cursor, level);
      nodes := nodes + [node];
      levels := levels + [level];
      cursor := cursor[level := id];
    }
    return Success(nodes);
  }
}
