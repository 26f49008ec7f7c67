/** $util.findTreeObj(targetId): a finder that searches a forest, depth first,
    for a node whose id is === targetId, and keeps what it found in its closure. */
module FindTreeObj {
  import opened Js
  import opened Tree

  /** The closure variable findObj after finder(items), when it held found
      before: in each sibling list, a matching node is recorded and ends that
      list (break); a non-matching one has its children searched first. The
      value a nested call returns is discarded, so the enclosing list goes on. */
  function ObjSearch(targetId: string, items: seq<Node>, found: Option<Node>): Option<Node>
    decreases items
  {
    if items == [] then found
    else if items[0].id == targetId then Some(items[0])
    else ObjSearch(targetId, items[1..], ObjSearch(targetId, items[0].children, found))
  }

  /** The finder returned by findTreeObj(targetId); findObj is its closure
      variable, never reset between calls. */
  class ObjFinder {
    const targetId: string
    var findObj: Option<Node>

    constructor (targetId: string)
      ensures this.targetId == targetId && findObj == None
    {
      this.targetId := targetId;
      findObj := None;
    }

    /** finder(items): the search loop, recursing into children, returning findObj. */
    method Finder(items: seq<Node>) returns (r: Option<Node>)
      modifies this
      ensures findObj == ObjSearch(targetId, items, old(findObj))
      ensures r == findObj
      decreases items
    {
      var i := 0;
      while i < |items|
        invariant 0 <= i <= |items|
        invariant forall j :: 0 <= j < i ==> items[j].id != targetId
        invariant findObj == ObjSearch(targetId, items[..i], old(findObj))
      {
        var item := items[i];
        if item.id == targetId {
          // a deep copy of the node is stored; for a value that is the node itself
          findObj := Some(item);
          ObjSearchSplit(targetId, items, i, old(findObj));
          break;
        }
        ghost var before := findObj;
        if |item.children| > 0 {
          var _ := Finder(item.children);
        }
        ObjSearchSplit(targetId, items[..i + 1], i, old(findObj));
        assert items[..i + 1][..i] == items[..i];
        assert items[..i + 1][i..] == [item];
        i := i + 1;
      }
      if i == |items| {
        assert items[..i] == items;
      }
      r := findObj;
    }
  }

  /** Before the first match of a sibling list, the search of the list is the
      search of its prefix followed by the search of the rest. */
  lemma {:induction false} ObjSearchSplit(targetId: string, items: seq<Node>, i: int, found: Option<Node>)
    requires 0 <= i <= |items|
    requires forall j :: 0 <= j < i ==> items[j].id != targetId
    ensures ObjSearch(targetId, items, found) == ObjSearch(targetId, items[i..], ObjSearch(targetId, items[..i], found))
    decreases i
  {
    if i > 0 {
      var f1 := ObjSearch(targetId, items[0].children, found);
      ObjSearchSplit(targetId, items[1..], i - 1, f1);
      assert items[1..][i - 1..] == items[i..];
      assert items[..i][1..] == items[1..][..i - 1];
    }
  }

  /** How many nodes of the forest have the id t. */
  function IdCount(t: string, items: seq<Node>): nat
    decreases items
  {
    if items == [] then 0
    else (if items[0].id == t then 1 else 0) + IdCount(t, items[0].children) + IdCount(t, items[1..])
  }

  /** A fresh finder returns undefined when no node has the target id; a used
      one keeps returning its earlier result. */
  lemma {:induction false} ObjSearchNoMatch(t: string, items: seq<Node>, found: Option<Node>)
    requires IdCount(t, items) == 0
    ensures ObjSearch(t, items, found) == found
    decreases items
  {
    if items != [] {
      ObjSearchNoMatch(t, items[0].children, found);
      ObjSearchNoMatch(t, items[1..], found);
    }
  }

  lemma {:induction false} OccursCounted(t: string, n: Node, items: seq<Node>)
    requires Occurs(n, items) && n.id == t
    ensures IdCount(t, items) >= 1
    decreases items
  {
    if items[0] != n {
      if Occurs(n, items[0].children) {
        OccursCounted(t, n, items[0].children);
      } else {
        OccursCounted(t, n, items[1..]);
      }
    }
  }

  /** When exactly one node has the target id, the finder returns that node,
      whatever it held before. */
  lemma {:induction false} ObjSearchUniqueMatch(t: string, items: seq<Node>, n: Node, found: Option<Node>)
    requires IdCount(t, items) == 1
    requires Occurs(n, items) && n.id == t
    ensures ObjSearch(t, items, found) == Some(n)
    decreases items
  {
    var x := items[0];
    if x.id == t {
      if x != n {
        if Occurs(n, x.children) {
          OccursCounted(t, n, x.children);
        } else {
          OccursCounted(t, n, items[1..]);
        }
      }
    } else if Occurs(n, x.children) {
      OccursCounted(t, n, x.children);
      ObjSearchUniqueMatch(t, x.children, n, found);
      ObjSearchNoMatch(t, items[1..], Some(n));
    } else {
      OccursCounted(t, n, items[1..]);
      ObjSearchNoMatch(t, x.children, found);
      ObjSearchUniqueMatch(t, items[1..], n, found);
    }
  }

  /** Whatever the finder returns is what it held before or a node of the
      forest with the target id. */
  lemma {:induction false} ObjSearchFindsMatch(t: string, items: seq<Node>, found: Option<Node>)
    ensures var r := ObjSearch(t, items, found);
      r == found || (r.Some? && r.value.id == t && Occurs(r.value, items))
    decreases items
  {
    if items != [] && items[0].id != t {
      var f1 := ObjSearch(t, items[0].children, found);
      ObjSearchFindsMatch(t, items[0].children, found);
      ObjSearchFindsMatch(t, items[1..], f1);
    }
  }

  /** The nodes finder visits, in order: in each sibling list every node up to
      and including the first match, each non-matching one followed by the
      visits of its children. The children of a match are never visited. */
  function Visits(t: string, items: seq<Node>): seq<Node>
    decreases items
  {
    if items == [] then []
    else if items[0].id == t then [items[0]]
    else [items[0]] + Visits(t, items[0].children) + Visits(t, items[1..])
  }

  /** The last node of vs with id t, or found when there is none. */
  function LastMatch(t: string, vs: seq<Node>, found: Option<Node>): Option<Node>
  {
    if vs == [] then found
    else if vs[|vs| - 1].id == t then Some(vs[|vs| - 1])
    else LastMatch(t, vs[..|vs| - 1], found)
  }

  lemma {:induction false} LastMatchAppend(t: string, a: seq<Node>, b: seq<Node>, found: Option<Node>)
    ensures LastMatch(t, a + b, found) == LastMatch(t, b, LastMatch(t, a, found))
    decreases |b|
  {
    if b == [] {
      assert a + b == a;
    } else {
      assert (a + b)[..|a + b| - 1] == a + b[..|b| - 1];
      LastMatchAppend(t, a, b[..|b| - 1], found);
    }
  }

  /** Later matches overwrite earlier ones: the finder ends up with the LAST
      matching node it visits, not the first in pre-order. */
  lemma {:induction false} ObjSearchIsLastVisitedMatch(t: string, items: seq<Node>, found: Option<Node>)
    ensures ObjSearch(t, items, found) == LastMatch(t, Visits(t, items), found)
    decreases items
  {
    if items != [] && items[0].id != t {
      var x := items[0];
      var vc, vr := Visits(t, x.children), Visits(t, items[1..]);
      ObjSearchIsLastVisitedMatch(t, x.children, found);
      ObjSearchIsLastVisitedMatch(t, items[1..], ObjSearch(t, x.children, found));
      LastMatchAppend(t, [x] + vc, vr, found);
      LastMatchAppend(t, [x], vc, found);
      assert LastMatch(t, [x], found) == found;
    }
  }

  /** [A{children: [B(x)]}, C(x)] yields C: the break in the inner list does not
      stop the outer one. */
  lemma LastMatchWinsExample()
    ensures var b := Node("x", [], map[]);
      var a := Node("a", [b], map[]);
      var c := Node("x", [], map["name" := Str("c")]);
      ObjSearch("x", [a, c], None) == Some(c)
  {
    var b := Node("x", [], map[]);
    var a := Node("a", [b], map[]);
    var c := Node("x", [], map["name" := Str("c")]);
    assert [a, c][1..] == [c];
    assert ObjSearch("x", [b], None) == Some(b);
  }
}
