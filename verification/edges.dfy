/**
 Edge emission (parse_icd11mms_tab.py, `write_out`, lines 82-103).

 The nodes are walked in id order. A node without a parent is skipped; every
 other node yields one `is_a` relation from the node to its parent, with an
 empty code on either side written as "NA". Each relation becomes one
 tab-separated output line.
 */
module Edges {
  import opened Text
  import opened Hierarchy

  /** The code written in place of an empty one. */
  const NoCode := "NA"

  /** One output record: child code and title, then parent code and title. */
  datatype Relation = Relation(childCode: string, childTitle: string, parentCode: string, parentTitle: string)

  /** Every parent link names a node of the sequence, so that the lookup at
      lines 94-95 finds it. */
  predicate Closed(nodes: seq<Node>) {
    forall i | 0 <= i < |nodes| :: nodes[i].parent.ParentAt? ==> nodes[i].parent.id < |nodes|
  }

  /** Lines 97-100: no written code is empty. An empty code is written as
      "NA", and any other code is written unchanged. */
  function ShownCode(code: string): (shown: string)
    ensures shown != ""
    ensures code == "" ==> shown == NoCode
    ensures code != "" ==> shown == code
  {
    if code == "" then NoCode else code
  }

  /** The record of node i, which has a parent: its own code and title, and
      the code and title of the node its link names, codes as shown. */
  function RelationOf(nodes: seq<Node>, i: nat): (r: Relation)
    requires Closed(nodes) && i < |nodes| && nodes[i].parent.ParentAt?
    ensures r.childTitle == nodes[i].title
    ensures r.parentTitle == nodes[nodes[i].parent.id].title
    ensures r.childCode != "" && (nodes[i].code != "" ==> r.childCode == nodes[i].code)
    ensures r.parentCode != "" && (nodes[nodes[i].parent.id].code != "" ==> r.parentCode == nodes[nodes[i].parent.id].code)
  {
    var p := nodes[nodes[i].parent.id];
    Relation(ShownCode(nodes[i].code), nodes[i].title, ShownCode(p.code), p.title)
  }

  /** The ids below k of the nodes that have a parent, in ascending order. */
  function LinkedIds(nodes: seq<Node>, k: nat): (ids: seq<nat>)
    requires k <= |nodes|
    ensures forall m | 0 <= m < |ids| :: ids[m] < k && nodes[ids[m]].parent.ParentAt?
    ensures forall m, m' | 0 <= m < m' < |ids| :: ids[m] < ids[m']
    ensures forall i | 0 <= i < k && nodes[i].parent.ParentAt? :: i in ids
  {
    if k == 0 then []
    else LinkedIds(nodes, k - 1) + (if nodes[k - 1].parent.ParentAt? then [k - 1] else [])
  }

  /** The ids below k of the nodes without a parent. */
  function RootsBelow(nodes: seq<Node>, k: nat): set<nat>
    requires k <= |nodes|
  {
    set i: nat | i < k && nodes[i].parent.NoParent?
  }

  /** Every node below k is either a root or listed among the linked ids. */
  lemma {:induction false} LinkedIdsCount(nodes: seq<Node>, k: nat)
    requires k <= |nodes|
    ensures |LinkedIds(nodes, k)| == k - |RootsBelow(nodes, k)|
  {
    if k > 0 {
      LinkedIdsCount(nodes, k - 1);
      if nodes[k - 1].parent.NoParent? {
        assert RootsBelow(nodes, k) == RootsBelow(nodes, k - 1) + {k - 1};
      } else {
        assert RootsBelow(nodes, k) == RootsBelow(nodes, k - 1);
      }
    }
  }

  /** The loop of lines 86-100 over the nodes below k: one record per node
      with a parent, in ascending id order. */
  function Emit(nodes: seq<Node>, k: nat): (rs: seq<Relation>)
    requires Closed(nodes) && k <= |nodes|
    ensures |rs| == |LinkedIds(nodes, k)|
    ensures forall m | 0 <= m < |rs| :: rs[m] == RelationOf(nodes, LinkedIds(nodes, k)[m])
  {
    if k == 0 then []
    else Emit(nodes, k - 1) + (if nodes[k - 1].parent.NoParent? then [] else [RelationOf(nodes, k - 1)])
  }

  /** Five columns joined with a separator, written out. */
  lemma JoinFive(a: string, b: string, c: string, d: string, e: string, sep: char)
    ensures Join([a, b, c, d, e], sep) == a + [sep] + b + [sep] + c + [sep] + d + [sep] + e
  {
    var parts := [a, b, c, d, e];
    assert parts[1..][1..] == parts[2..];
    assert parts[2..][1..] == parts[3..];
    assert parts[3..][1..] == [e];
    assert Join(parts[3..], sep) == d + [sep] + e;
    assert Join(parts[2..], sep) == c + [sep] + d + [sep] + e;
    assert Join(parts[1..], sep) == b + [sep] + c + [sep] + d + [sep] + e;
  }

  /** Line 102: the record as one output line, which is its five columns
      joined with tabs and closed by a newline. */
  function FormatLine(r: Relation): (line: string)
    ensures line == Join([r.childCode, r.childTitle, "is_a", r.parentCode, r.parentTitle], '\t') + "\n"
  {
    JoinFive(r.childCode, r.childTitle, "is_a", r.parentCode, r.parentTitle, '\t');
    r.childCode + "\t" + r.childTitle + "\tis_a\t" + r.parentCode + "\t" + r.parentTitle + "\n"
  }

  /** The lines `write_out` writes, in order: as many as there are nodes with
      a parent. */
  function WriteOut(nodes: seq<Node>): (lines: seq<string>)
    requires Closed(nodes)
    ensures |lines| == |nodes| - |RootsBelow(nodes, |nodes|)|
    ensures forall m | 0 <= m < |lines| :: |lines[m]| > 0 && lines[m][|lines[m]| - 1] == '\n'
  {
    LinkedIdsCount(nodes, |nodes|);
    var rs := Emit(nodes, |nodes|);
    seq(|rs|, m requires 0 <= m < |rs| => FormatLine(rs[m]))
  }

  /** Record fields: the child side is the node's own code and title, the
      parent side is the code and title of the node its link names, and a
      code is replaced by "NA" exactly when it is empty. */
  lemma RecordFields(nodes: seq<Node>, m: nat)
    requires Closed(nodes) && m < |Emit(nodes, |nodes|)|
    ensures var i := LinkedIds(nodes, |nodes|)[m];
      var p := nodes[nodes[i].parent.id];
      var r := Emit(nodes, |nodes|)[m];
      && r.childTitle == nodes[i].title
      && r.parentTitle == p.title
      && (r.childCode == NoCode <==> nodes[i].code == "" || nodes[i].code == NoCode)
      && (nodes[i].code != "" ==> r.childCode == nodes[i].code)
      && (r.parentCode == NoCode <==> p.code == "" || p.code == NoCode)
      && (p.code != "" ==> r.parentCode == p.code)
  {
  }

  /** Splitting an output line, without its newline, on tabs gives back the
      five columns whenever no field holds a tab. */
  lemma FormatRoundTrip(r: Relation)
    requires '\t' !in r.childCode && '\t' !in r.childTitle
    requires '\t' !in r.parentCode && '\t' !in r.parentTitle
    ensures var line := FormatLine(r);
      Split(line[..|line| - 1], '\t') == [r.childCode, r.childTitle, "is_a", r.parentCode, r.parentTitle]
  {
    var parts := [r.childCode, r.childTitle, "is_a", r.parentCode, r.parentTitle];
    var line := FormatLine(r);
    assert line[..|line| - 1] == Join(parts, '\t');
    SplitJoin(parts, '\t');
  }
}
