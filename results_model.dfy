/**
 * The result rows of a search and the table model that holds them (ResultsModel),
 * with the text the two "copy" buttons build from the rows.
 */
module Results {
  import opened Wrappers

  /** A result node (JNode), reduced to what the dialog reads of it. */
  datatype Row = Row(
    id: nat,                  // node identity, the target of a plain code jump
    javaRef: Option<string>,  // getJavaNode().getCodeNodeRef().toString(); None when there is no JavaNode
    hasDesc: bool,            // hasDescString()
    desc: string,             // makeDescString()
    syntax: string,           // getSyntaxName()
    pos: int,                 // getPos()
    resNode: Option<nat>)     // Some(resource node) exactly when the node is a JResSearchNode

  /** Some row has a description. */
  predicate AnyDesc(rows: seq<Row>) {
    exists r :: r in rows && r.hasDesc
  }

  datatype TableError = IndexOutOfBounds(index: int)

  // ---- sorting by the node order ----

  /** JNode.compareTo, as a comparator: true when a may come before b. */
  ghost predicate IsTotalPreorder(le: (Row, Row) -> bool) {
    (forall a, b :: le(a, b) || le(b, a)) &&
    (forall a, b, c :: le(a, b) && le(b, c) ==> le(a, c))
  }

  predicate Sorted(rows: seq<Row>, le: (Row, Row) -> bool) {
    forall i, j :: 0 <= i < j < |rows| ==> le(rows[i], rows[j])
  }

  function Insert(x: Row, s: seq<Row>, le: (Row, Row) -> bool): (r: seq<Row>)
    ensures |r| == |s| + 1 && multiset(r) == multiset(s) + multiset{x}
  {
    if s == [] then [x]
    else if le(x, s[0]) then [x] + s
    else
      assert s == [s[0]] + s[1..];
      [s[0]] + Insert(x, s[1..], le)
  }

  /** The rows in the comparator's order (Collections.sort). */
  function SortRows(rows: seq<Row>, le: (Row, Row) -> bool): (r: seq<Row>)
    ensures |r| == |rows| && multiset(r) == multiset(rows)
  {
    if rows == [] then []
    else
      assert rows == [rows[0]] + rows[1..];
      Insert(rows[0], SortRows(rows[1..], le), le)
  }

  /** A row in front of sorted rows that it may precede keeps them sorted. */
  lemma SortedCons(h: Row, t: seq<Row>, le: (Row, Row) -> bool)
    requires Sorted(t, le) && forall k :: 0 <= k < |t| ==> le(h, t[k])
    ensures Sorted([h] + t, le)
  {
    var r := [h] + t;
    forall i, j | 0 <= i < j < |r| ensures le(r[i], r[j]) {
      assert r[j] == t[j - 1];
      if i > 0 { assert r[i] == t[i - 1]; }
    }
  }

  lemma {:induction false} InsertSorted(x: Row, s: seq<Row>, le: (Row, Row) -> bool)
    requires IsTotalPreorder(le) && Sorted(s, le)
    ensures Sorted(Insert(x, s, le), le)
  {
    if s == [] {
    } else if le(x, s[0]) {
      forall k | 0 <= k < |s| ensures le(x, s[k]) {
        if k > 0 { assert le(s[0], s[k]); }
      }
      SortedCons(x, s, le);
    } else {
      assert le(s[0], x);
      var rest := s[1..];
      var tail := Insert(x, rest, le);
      assert Sorted(rest, le) by {
        forall i, j | 0 <= i < j < |rest| ensures le(rest[i], rest[j]) {
          assert rest[i] == s[i + 1] && rest[j] == s[j + 1];
        }
      }
      InsertSorted(x, rest, le);
      forall k | 0 <= k < |tail| ensures le(s[0], tail[k]) {
        var y := tail[k];
        assert y in multiset(tail);
        if y != x {
          assert y in multiset(rest);
          var m :| 0 <= m < |rest| && rest[m] == y;
          assert s[m + 1] == y;
        }
      }
      SortedCons(s[0], tail, le);
    }
  }

  /** Sorting yields a sorted permutation of the rows. */
  lemma {:induction false} SortRowsSorted(rows: seq<Row>, le: (Row, Row) -> bool)
    requires IsTotalPreorder(le)
    ensures Sorted(SortRows(rows, le), le)
    ensures multiset(SortRows(rows, le)) == multiset(rows)
  {
    if rows != [] {
      SortRowsSorted(rows[1..], le);
      InsertSorted(rows[0], SortRows(rows[1..], le), le);
    }
  }

  /** Reordering the rows does not change whether one has a description. */
  lemma AnyDescOfPermutation(a: seq<Row>, b: seq<Row>)
    requires multiset(a) == multiset(b)
    ensures AnyDesc(a) == AnyDesc(b)
  {
    if AnyDesc(a) {
      var r :| r in a && r.hasDesc;
      assert r in multiset(b);
    }
    if AnyDesc(b) {
      var r :| r in b && r.hasDesc;
      assert r in multiset(a);
    }
  }

  /** The table model behind the results table. */
  class ResultsModel {
    var rows: seq<Row>
    var addDescColumn: bool

    /** The description column is shown exactly when some row has a description. */
    ghost predicate Valid()
      reads this
    {
      addDescColumn == AnyDesc(rows)
    }

    constructor ()
      ensures Valid() && rows == [] && !addDescColumn
    {
      rows := [];
      addDescColumn := false;
    }

    /** Appends the nodes; a flag still false is set when some row now has a description. */
    method AddAll(nodes: seq<Row>)
      modifies this
      ensures rows == old(rows) + nodes
      ensures addDescColumn == (old(addDescColumn) || AnyDesc(rows))
      ensures old(Valid()) ==> Valid() && addDescColumn == (old(addDescColumn) || AnyDesc(nodes))
    {
      rows := rows + nodes;
      if !addDescColumn {
        var i := 0;
        while i < |rows|
          invariant 0 <= i <= |rows|
          invariant !addDescColumn
          invariant forall k :: 0 <= k < i ==> !rows[k].hasDesc
        {
          if rows[i].hasDesc {
            addDescColumn := true;
            break;
          }
          i := i + 1;
        }
      }
      assert forall r :: r in rows <==> r in old(rows) || r in nodes;
    }

    /** Empties the rows and resets the flag. */
    method Clear()
      modifies this
      ensures rows == [] && !addDescColumn && Valid()
    {
      addDescColumn := false;
      rows := [];
    }

    /** Sorts the rows by the node order; the flag is left alone. */
    method Sort(le: (Row, Row) -> bool)
      requires IsTotalPreorder(le)
      modifies this
      ensures rows == SortRows(old(rows), le)
      ensures Sorted(rows, le) && multiset(rows) == multiset(old(rows))
      ensures addDescColumn == old(addDescColumn)
      ensures old(Valid()) ==> Valid()
    {
      SortRowsSorted(rows, le);
      AnyDescOfPermutation(rows, SortRows(rows, le));
      rows := SortRows(rows, le);
    }

    /** isAddDescColumn(), read through the model's invariant. */
    function IsAddDescColumn(): (r: bool)
      reads this
      requires Valid()
      ensures r <==> exists k :: 0 <= k < |rows| && rows[k].hasDesc
    {
      assert forall k :: 0 <= k < |rows| ==> rows[k] in rows;
      addDescColumn
    }

    /** getRowCount() */
    function RowCount(): (n: nat)
      reads this
      ensures n == |rows|
    {
      |rows|
    }

    /** getValueAt(row, column): the row's node whatever the column; rows.get throws out of range. */
    function ValueAt(rowIndex: int, columnIndex: int): (r: Result<Row, TableError>)
      reads this
      ensures r.Ok? <==> 0 <= rowIndex < |rows|
      ensures r.Ok? ==> r.value == rows[rowIndex]
      ensures r.Err? ==> r.error == IndexOutOfBounds(rowIndex)
    {
      if 0 <= rowIndex < |rows| then Ok(rows[rowIndex]) else Err(IndexOutOfBounds(rowIndex))
    }
  }

  /** A client of ResultsModel: the description-column flag is sticky until clear(). */
  method DescColumnIsSticky(plain: Row, described: Row)
    requires !plain.hasDesc && described.hasDesc
  {
    var m := new ResultsModel();
    m.AddAll([plain]);
    assert !m.addDescColumn;
    m.AddAll([plain, described]);
    assert m.addDescColumn;
    m.AddAll([plain]);
    assert m.addDescColumn;
    m.Sort((a: Row, b: Row) => a.id <= b.id);
    assert m.addDescColumn && |m.rows| == 4;
    m.Clear();
    m.AddAll([plain]);
    assert !m.addDescColumn;
  }

  // ---- text for the clipboard ----

  /** The StringBuilder contents after appending each line followed by "\n". */
  function Lines(xs: seq<string>): (r: string)
    ensures xs == [] <==> r == ""
    ensures xs != [] ==> r[|r| - 1] == '\n'
  {
    if xs == [] then "" else Lines(xs[..|xs| - 1]) + xs[|xs| - 1] + "\n"
  }

  /** Some row has a JavaNode whose code-node reference is x. */
  predicate HasRef(rows: seq<Row>, x: string) {
    exists i :: 0 <= i < |rows| && rows[i].javaRef == Some(x)
  }

  /** The code-node references of the rows, each kept at its first occurrence. */
  function UniqueRefs(rows: seq<Row>): (u: seq<string>)
    ensures |u| <= |rows|
  {
    if rows == [] then []
    else
      var prev := UniqueRefs(rows[..|rows| - 1]);
      var last := rows[|rows| - 1];
      if last.javaRef.Some? && last.javaRef.value !in prev then prev + [last.javaRef.value] else prev
  }

  /** The descriptions of the rows that have one, in row order. */
  function Descs(rows: seq<Row>): (d: seq<string>)
    ensures |d| <= |rows|
  {
    if rows == [] then []
    else
      var prev := Descs(rows[..|rows| - 1]);
      var last := rows[|rows| - 1];
      if last.hasDesc then prev + [last.desc] else prev
  }

  lemma HasRefTail(rows: seq<Row>, x: string)
    requires HasRef(rows, x) && rows[0].javaRef != Some(x)
    ensures HasRef(rows[1..], x)
  {
    var i :| 0 <= i < |rows| && rows[i].javaRef == Some(x);
    assert rows[1..][i - 1] == rows[i];
  }

  /** Index of the first row whose reference is x. */
  function FirstRef(rows: seq<Row>, x: string): (k: nat)
    requires HasRef(rows, x)
    ensures k < |rows| && rows[k].javaRef == Some(x)
    ensures forall j :: 0 <= j < k ==> rows[j].javaRef != Some(x)
  {
    if rows[0].javaRef == Some(x) then 0
    else
      HasRefTail(rows, x);
      FirstRef(rows[1..], x) + 1
  }

  /** The unique references are exactly the references some row has. */
  lemma {:induction false} UniqueRefsMembers(rows: seq<Row>, x: string)
    ensures x in UniqueRefs(rows) <==> HasRef(rows, x)
  {
    if rows != [] {
      var init := rows[..|rows| - 1];
      UniqueRefsMembers(init, x);
      if HasRef(init, x) {
        var i :| 0 <= i < |init| && init[i].javaRef == Some(x);
        assert rows[i] == init[i];
      }
    }
  }

  /** No reference is emitted twice. */
  lemma {:induction false} UniqueRefsNoDuplicates(rows: seq<Row>)
    ensures NoDuplicates(UniqueRefs(rows))
  {
    if rows != [] {
      UniqueRefsNoDuplicates(rows[..|rows| - 1]);
    }
  }

  /** The references come in the order of their first occurrence among the rows. */
  lemma {:induction false} UniqueRefsFirstOccurrenceOrder(rows: seq<Row>, p: nat, q: nat)
    requires p < q < |UniqueRefs(rows)|
    ensures HasRef(rows, UniqueRefs(rows)[p]) && HasRef(rows, UniqueRefs(rows)[q])
    ensures FirstRef(rows, UniqueRefs(rows)[p]) < FirstRef(rows, UniqueRefs(rows)[q])
  {
    var u := UniqueRefs(rows);
    UniqueRefsMembers(rows, u[p]);
    UniqueRefsMembers(rows, u[q]);
    var init := rows[..|rows| - 1];
    var prev := UniqueRefs(init);
    UniqueRefsMembers(init, u[p]);
    assert forall j :: 0 <= j < |init| ==> init[j] == rows[j];
    if q < |prev| {
      UniqueRefsFirstOccurrenceOrder(init, p, q);
      assert u[p] == prev[p] && u[q] == prev[q];
      UniqueRefsMembers(init, u[q]);
      assert FirstRef(rows, u[p]) == FirstRef(init, u[p]);
      assert FirstRef(rows, u[q]) == FirstRef(init, u[q]);
    } else {
      // u[q] is the last row's reference, new with that row
      assert u[p] == prev[p];
      UniqueRefsMembers(init, u[q]);
      assert FirstRef(rows, u[q]) == |rows| - 1;
      assert FirstRef(rows, u[p]) == FirstRef(init, u[p]);
    }
  }

  /** The description lines of two row lists concatenate. */
  lemma {:induction false} DescsAppend(a: seq<Row>, b: seq<Row>)
    ensures Descs(a + b) == Descs(a) + Descs(b)
  {
    if b != [] {
      var b0 := b[..|b| - 1];
      DescsAppend(a, b0);
      assert (a + b)[..|a + b| - 1] == a + b0;
      assert (a + b)[|a + b| - 1] == b[|b| - 1];
    } else {
      assert a + b == a;
    }
  }

  /** A description is copied exactly when some row with a description has it. */
  lemma {:induction false} DescsMembers(rows: seq<Row>, x: string)
    ensures x in Descs(rows) <==> exists r :: r in rows && r.hasDesc && r.desc == x
  {
    if rows != [] {
      var init := rows[..|rows| - 1];
      DescsMembers(init, x);
      assert rows == init + [rows[|rows| - 1]];
    }
  }

  /** Building the text in two parts gives the same text. */
  lemma {:induction false} LinesAppend(a: seq<string>, b: seq<string>)
    ensures Lines(a + b) == Lines(a) + Lines(b)
  {
    if b != [] {
      var b0 := b[..|b| - 1];
      LinesAppend(a, b0);
      assert (a + b)[..|a + b| - 1] == a + b0;
      assert (a + b)[|a + b| - 1] == b[|b| - 1];
    } else {
      assert a + b == a;
    }
  }
}
