/** $util.findTreeIds(targetId): a finder that rewrites each visited node's id
    into its ancestor chain "own,parent,...,root" and returns the chain of the
    node it matched, split and reversed into a root-first path. */
module FindTreeIds {
  import opened Js
  import opened Tree

  /** The id a visited node is given: its own id, then a comma and the parent
      chain when that chain is non-empty; an empty or absent parent chain is
      falsy and adds nothing. */
  function Chain(id: string, parentId: string): (r: string)
    ensures IsPrefix(id, r)
  {
    if Truthy(Str(parentId)) then id + [','] + parentId else id
  }

  /** What one call of finder leaves behind: the forest with the visited ids
      rewritten, and the closure variable findIds. */
  datatype Outcome = Outcome(items: seq<Node>, findIds: Option<string>)

  /** finder(items, parentId) with findIds holding found before the call. Each
      node's id becomes its chain; a chain that includes targetId is recorded
      and ends the sibling list (break); otherwise the node's children are
      searched with the chain as their parent id, and the list goes on. */
  function IdsSearch(t: string, items: seq<Node>, parentId: string, found: Option<string>): (r: Outcome)
    ensures |r.items| == |items|
    decreases items
  {
    if items == [] then Outcome([], found)
    else
      var x := items[0];
      var chain := Chain(x.id, parentId);
      if Includes(chain, t) then Outcome([x.(id := chain)] + items[1..], Some(chain))
      else
        var inner := IdsSearch(t, x.children, chain, found);
        var rest := IdsSearch(t, items[1..], parentId, inner.findIds);
        Outcome([x.(id := chain, children := inner.items)] + rest.items, rest.findIds)
  }

  /** What finder returns: no recorded chain gives the empty list; a recorded
      chain gives its comma-separated pieces in reverse order, root first. */
  function IdsResult(findIds: Option<string>): (r: seq<string>)
    ensures findIds.None? ==> r == []
    ensures findIds.Some? ==> |r| >= 1 && Join(Reversed(r), ',') == findIds.value
    ensures findIds.Some? ==> forall j :: 0 <= j < |r| ==> ',' !in r[j]
  {
    match findIds
    case None => []
    case Some(chain) =>
      var parts := Split(chain, ',');
      ReversedReversed(parts);
      JoinSplit(chain, ',');
      Reversed(parts)
  }

  /** The finder returned by findTreeIds(targetId); findIds is its closure
      variable, never reset between calls. */
  class IdsFinder {
    const targetId: string
    var findIds: Option<string>

    constructor (targetId: string)
      ensures this.targetId == targetId && findIds == None
    {
      this.targetId := targetId;
      findIds := None;
    }

    /** finder(items, parentId): searches items, then returns the ids of the
        recorded chain. An absent parentId is passed as "". */
    method Finder(items: seq<Node>, parentId: string) returns (visited: seq<Node>, ids: seq<string>)
      modifies this
      ensures Outcome(visited, findIds) == IdsSearch(targetId, items, parentId, old(findIds))
      ensures ids == IdsResult(findIds)
    {
      visited := Search(items, parentId);
      ids := IdsResult(findIds);
    }

    /** The loop of finder: each node's id becomes its chain (returned here as
        the rewritten forest, visited); a chain including targetId is recorded
        and ends the list; otherwise the children, if any, are searched with
        the chain as their parent id. A nested finder call's return value is
        discarded, so the recursion is on the loop alone. */
    method Search(items: seq<Node>, parentId: string) returns (visited: seq<Node>)
      modifies this
      ensures Outcome(visited, findIds) == IdsSearch(targetId, items, parentId, old(findIds))
      decreases items
    {
      visited := [];
      var i := 0;
      SearchStart(targetId, items, parentId, findIds);
      while i < |items|
        invariant 0 <= i <= |items|
        invariant SearchedUpTo(targetId, items, parentId, old(findIds), i, visited, findIds)
      {
        var item := items[i];
        item := item.(id := Chain(item.id, parentId));
        if Includes(item.id, targetId) {
          SearchHit(targetId, items, parentId, old(findIds), i, visited, findIds);
          findIds := Some(item.id);
          visited := visited + [item] + items[i + 1..];
          return;
        }
        ghost var before := findIds;
        var kids := [];
        if |item.children| > 0 {
          kids := Search(item.children, item.id);
        }
        SearchStep(targetId, items, parentId, old(findIds), i, visited, before, kids, findIds);
        item := item.(children := kids);
        visited := visited + [item];
        i := i + 1;
      }
      SearchDone(targetId, items, parentId, old(findIds), visited, findIds);
    }
  }

  /** The loop invariant of Search: visited holds the first i nodes as the
      search leaves them, and searching the rest from found gives the whole. */
  predicate SearchedUpTo(t: string, items: seq<Node>, parentId: string, start: Option<string>, i: int, visited: seq<Node>, found: Option<string>)
  {
    0 <= i <= |items| &&
    var rest := IdsSearch(t, items[i..], parentId, found);
    IdsSearch(t, items, parentId, start) == Outcome(visited + rest.items, rest.findIds)
  }

  /** Nothing searched yet. */
  lemma SearchStart(t: string, items: seq<Node>, parentId: string, start: Option<string>)
    ensures SearchedUpTo(t, items, parentId, start, 0, [], start)
  {
    assert items[0..] == items;
  }

  /** The whole list searched. */
  lemma SearchDone(t: string, items: seq<Node>, parentId: string, start: Option<string>, visited: seq<Node>, found: Option<string>)
    requires SearchedUpTo(t, items, parentId, start, |items|, visited, found)
    ensures IdsSearch(t, items, parentId, start) == Outcome(visited, found)
  {
    assert items[|items|..] == [];
    assert visited + [] == visited;
  }

  /** The loop stops at a node whose chain includes t. */
  lemma SearchHit(t: string, items: seq<Node>, parentId: string, start: Option<string>, i: int, visited: seq<Node>, found: Option<string>)
    requires i < |items| && SearchedUpTo(t, items, parentId, start, i, visited, found)
    requires Includes(Chain(items[i].id, parentId), t)
    ensures var chain := Chain(items[i].id, parentId);
      IdsSearch(t, items, parentId, start) == Outcome(visited + [items[i].(id := chain)] + items[i + 1..], Some(chain))
  {
    var chain := Chain(items[i].id, parentId);
    assert items[i..][0] == items[i] && items[i..][1..] == items[i + 1..];
    assert IdsSearch(t, items[i..], parentId, found) == Outcome([items[i].(id := chain)] + items[i + 1..], Some(chain));
    assert visited + ([items[i].(id := chain)] + items[i + 1..]) == visited + [items[i].(id := chain)] + items[i + 1..];
  }

  /** The loop moves past a node whose chain does not include t, once its
      children are searched. */
  lemma SearchStep(t: string, items: seq<Node>, parentId: string, start: Option<string>, i: int, visited: seq<Node>,
                   found: Option<string>, kids: seq<Node>, after: Option<string>)
    requires i < |items| && SearchedUpTo(t, items, parentId, start, i, visited, found)
    requires !Includes(Chain(items[i].id, parentId), t)
    requires Outcome(kids, after) == IdsSearch(t, items[i].children, Chain(items[i].id, parentId), found)
    ensures SearchedUpTo(t, items, parentId, start, i + 1, visited + [items[i].(id := Chain(items[i].id, parentId), children := kids)], after)
  {
    var x' := items[i].(id := Chain(items[i].id, parentId), children := kids);
    assert items[i..][0] == items[i] && items[i..][1..] == items[i + 1..];
    var rest := IdsSearch(t, items[i + 1..], parentId, after);
    assert IdsSearch(t, items[i..], parentId, found) == Outcome([x'] + rest.items, rest.findIds);
    assert visited + ([x'] + rest.items) == visited + [x'] + rest.items;
  }

  /** findIds only ever changes to a chain that includes the target. */
  lemma {:induction false} IdsSearchRecordsMatch(t: string, items: seq<Node>, parentId: string, found: Option<string>)
    ensures var r := IdsSearch(t, items, parentId, found).findIds;
      r == found || (r.Some? && Includes(r.value, t))
    decreases items
  {
    if items != [] {
      var x := items[0];
      var chain := Chain(x.id, parentId);
      if !Includes(chain, t) {
        var inner := IdsSearch(t, x.children, chain, found);
        IdsSearchRecordsMatch(t, x.children, chain, found);
        IdsSearchRecordsMatch(t, items[1..], parentId, inner.findIds);
      }
    }
  }

  /** after is before as the finder leaves it below the parent chain parentId:
      the same number of nodes, each either untouched or given exactly the id
      Chain(own id, parentId), with its other fields kept and its children in
      turn rewritten below that new id. */
  predicate Rewritten(before: seq<Node>, after: seq<Node>, parentId: string)
    decreases before
  {
    && |before| == |after|
    && forall i :: 0 <= i < |before| ==>
         || after[i] == before[i]
         || (&& after[i].id == Chain(before[i].id, parentId)
             && after[i].fields == before[i].fields
             && Rewritten(before[i].children, after[i].children, after[i].id))
  }

  /** The finder changes nothing but ids, and each id it changes becomes the
      node's own id followed by the chain of its parent's new id. */
  lemma {:induction false} IdsSearchRewrites(t: string, items: seq<Node>, parentId: string, found: Option<string>)
    ensures Rewritten(items, IdsSearch(t, items, parentId, found).items, parentId)
    decreases items
  {
    if items != [] {
      var x := items[0];
      var chain := Chain(x.id, parentId);
      var r := IdsSearch(t, items, parentId, found);
      if Includes(chain, t) {
        assert Rewritten(x.children, x.children, chain);
        assert Rewritten(items[1..], items[1..], parentId);
        RewrittenCons(x, x.(id := chain), items[1..], items[1..], parentId);
      } else {
        var inner := IdsSearch(t, x.children, chain, found);
        IdsSearchRewrites(t, x.children, chain, found);
        IdsSearchRewrites(t, items[1..], parentId, inner.findIds);
        var rest := IdsSearch(t, items[1..], parentId, inner.findIds);
        RewrittenCons(x, x.(id := chain, children := inner.items), items[1..], rest.items, parentId);
      }
    }
  }

  lemma RewrittenCons(x: Node, y: Node, xs: seq<Node>, ys: seq<Node>, parentId: string)
    requires y.id == Chain(x.id, parentId) && y.fields == x.fields && Rewritten(x.children, y.children, y.id)
    requires Rewritten(xs, ys, parentId)
    ensures Rewritten([x] + xs, [y] + ys, parentId)
  {
    var a, b := [x] + xs, [y] + ys;
    forall i | 0 <= i < |a|
      ensures || b[i] == a[i]
              || (b[i].id == Chain(a[i].id, parentId) && b[i].fields == a[i].fields && Rewritten(a[i].children, b[i].children, b[i].id))
    {
      if i > 0 {
        assert a[i] == xs[i - 1] && b[i] == ys[i - 1];
      }
    }
  }

  /** Within one sibling list the finder rewrites every node up to the first
      whose chain includes t, records that chain and stops: the matched node
      keeps its children and the later siblings come back untouched. */
  lemma {:induction false} IdsSearchStopsAtHit(t: string, items: seq<Node>, parentId: string, found: Option<string>, i: nat)
    requires i <= |items|
    requires forall j :: 0 <= j < i ==> !Includes(Chain(items[j].id, parentId), t)
    requires i < |items| ==> Includes(Chain(items[i].id, parentId), t)
    ensures var r := IdsSearch(t, items, parentId, found);
      && (forall j :: 0 <= j < i ==> r.items[j].id == Chain(items[j].id, parentId))
      && (i < |items| ==>
            && r.items[i] == items[i].(id := Chain(items[i].id, parentId))
            && r.items[i + 1..] == items[i + 1..]
            && r.findIds == Some(Chain(items[i].id, parentId)))
    decreases i
  {
    if i > 0 {
      var tail := items[1..];
      NoHitBeforeInTail(t, items, parentId, i);
      var head, found' := IdsSearchPastHead(t, items, parentId, found);
      IdsSearchStopsAtHit(t, tail, parentId, found', i - 1);
      var rest := IdsSearch(t, tail, parentId, found');
      ShiftedVisits(t, items, parentId, found, head, rest, i);
    }
  }

  lemma NoHitBeforeInTail(t: string, items: seq<Node>, parentId: string, i: nat)
    requires 0 < i <= |items|
    requires forall j :: 0 <= j < i ==> !Includes(Chain(items[j].id, parentId), t)
    ensures forall j :: 0 <= j < i - 1 ==> !Includes(Chain(items[1..][j].id, parentId), t)
  {
    forall j | 0 <= j < i - 1 ensures !Includes(Chain(items[1..][j].id, parentId), t) {
      assert items[1..][j] == items[j + 1];
    }
  }

  /** The search of a list whose first node does not match: that node with its
      chain and searched children, then the search of the rest. */
  lemma IdsSearchPastHead(t: string, items: seq<Node>, parentId: string, found: Option<string>) returns (head: Node, found': Option<string>)
    requires items != [] && !Includes(Chain(items[0].id, parentId), t)
    ensures head.id == Chain(items[0].id, parentId)
    ensures var rest := IdsSearch(t, items[1..], parentId, found');
      IdsSearch(t, items, parentId, found) == Outcome([head] + rest.items, rest.findIds)
  {
    var x := items[0];
    var chain := Chain(x.id, parentId);
    var inner := IdsSearch(t, x.children, chain, found);
    head, found' := x.(id := chain, children := inner.items), inner.findIds;
  }

  /** The facts of IdsSearchStopsAtHit about the rest of the list, moved one
      place to the right past the head. */
  lemma ShiftedVisits(t: string, items: seq<Node>, parentId: string, found: Option<string>, head: Node, rest: Outcome, i: nat)
    requires 0 < i <= |items| && |rest.items| == |items| - 1
    requires IdsSearch(t, items, parentId, found) == Outcome([head] + rest.items, rest.findIds)
    requires head.id == Chain(items[0].id, parentId)
    requires forall j :: 0 <= j < i - 1 ==> rest.items[j].id == Chain(items[1..][j].id, parentId)
    requires i < |items| ==>
      && rest.items[i - 1] == items[1..][i - 1].(id := Chain(items[1..][i - 1].id, parentId))
      && rest.items[i..] == items[1..][i..]
      && rest.findIds == Some(Chain(items[1..][i - 1].id, parentId))
    ensures var r := IdsSearch(t, items, parentId, found);
      && (forall j :: 0 <= j < i ==> r.items[j].id == Chain(items[j].id, parentId))
      && (i < |items| ==>
            && r.items[i] == items[i].(id := Chain(items[i].id, parentId))
            && r.items[i + 1..] == items[i + 1..]
            && r.findIds == Some(Chain(items[i].id, parentId)))
  {
    var r := [head] + rest.items;
    forall j | 0 <= j < i ensures r[j].id == Chain(items[j].id, parentId) {
      if j > 0 {
        assert r[j] == rest.items[j - 1] && items[j] == items[1..][j - 1];
      }
    }
    if i < |items| {
      assert r[i] == rest.items[i - 1] && items[i] == items[1..][i - 1];
      assert r[i + 1..] == rest.items[i..] && items[i + 1..] == items[1..][i..];
    }
  }

  /** The chains the finder builds, in the order it visits the nodes: in each
      sibling list every node up to and including the first whose chain
      includes t, each other one followed by the chains of its children. */
  function ChainVisits(t: string, items: seq<Node>, parentId: string): seq<string>
    decreases items
  {
    if items == [] then []
    else
      var chain := Chain(items[0].id, parentId);
      if Includes(chain, t) then [chain]
      else [chain] + ChainVisits(t, items[0].children, chain) + ChainVisits(t, items[1..], parentId)
  }

  /** The last chain of vs that includes t, or found when there is none. */
  function LastIncluding(t: string, vs: seq<string>, found: Option<string>): Option<string>
  {
    if vs == [] then found
    else if Includes(vs[|vs| - 1], t) then Some(vs[|vs| - 1])
    else LastIncluding(t, vs[..|vs| - 1], found)
  }

  lemma {:induction false} LastIncludingAppend(t: string, a: seq<string>, b: seq<string>, found: Option<string>)
    ensures LastIncluding(t, a + b, found) == LastIncluding(t, b, LastIncluding(t, a, found))
    decreases |b|
  {
    if b == [] {
      assert a + b == a;
    } else {
      assert (a + b)[..|a + b| - 1] == a + b[..|b| - 1];
      LastIncludingAppend(t, a, b[..|b| - 1], found);
    }
  }

  /** The break ends only the sibling list it is in, so a later match
      overwrites an earlier one: findIds ends up as the LAST chain including t
      that the finder builds, not the one of the first match in pre-order. */
  lemma {:induction false} IdsSearchIsLastVisitedMatch(t: string, items: seq<Node>, parentId: string, found: Option<string>)
    ensures IdsSearch(t, items, parentId, found).findIds == LastIncluding(t, ChainVisits(t, items, parentId), found)
    decreases items
  {
    if items != [] {
      var x := items[0];
      var chain := Chain(x.id, parentId);
      if Includes(chain, t) {
        assert LastIncluding(t, [chain], found) == Some(chain);
      } else {
        var vc, vr := ChainVisits(t, x.children, chain), ChainVisits(t, items[1..], parentId);
        IdsSearchIsLastVisitedMatch(t, x.children, chain, found);
        IdsSearchIsLastVisitedMatch(t, items[1..], parentId, IdsSearch(t, x.children, chain, found).findIds);
        LastIncludingAppend(t, [chain] + vc, vr, found);
        LastIncludingAppend(t, [chain], vc, found);
        assert LastIncluding(t, [chain], found) == found;
      }
    }
  }

  /** [a{children: [x]}, x'] with target x: the chain x,a of the nested x is
      recorded first, then overwritten by the chain of the later sibling x',
      so the finder returns [x] rather than the pre-order path [a, x]. */
  lemma LastChainWinsExample()
    ensures var x := Node("x", [], map[]);
      var a := Node("a", [x], map[]);
      var x' := Node("x", [], map["name" := Str("later")]);
      var r := IdsSearch("x", [a, x'], "", None);
      r.findIds == Some("x") && IdsResult(r.findIds) == ["x"]
  {
    var x := Node("x", [], map[]);
    var a := Node("a", [x], map[]);
    var x' := Node("x", [], map["name" := Str("later")]);
    IncludesShort("a", "x");
    assert Includes("x,a", "x") by {
      assert IsPrefix("x", "x,a");
    }
    IncludesShort("x", "x");
    IdsSearchSingleHit("x", x, "a", None);
    IdsSearchSingleHit("x", x', "", Some("x,a"));
    assert [a, x'][1..] == [x'];
    SplitNoSeparator("x", ',');
  }

  /** The ids of a fresh tree: non-empty and free of commas. */
  predicate CleanIds(items: seq<Node>)
    decreases items
  {
    forall i :: 0 <= i < |items| ==> items[i].id != "" && ',' !in items[i].id && CleanIds(items[i].children)
  }

  /** How many nodes' ids include t. */
  function HitCount(t: string, items: seq<Node>): nat
    decreases items
  {
    if items == [] then 0
    else (if Includes(items[0].id, t) then 1 else 0) + HitCount(t, items[0].children) + HitCount(t, items[1..])
  }

  /** The ids from a root down to the first node, in pre-order, whose id
      includes t; [] when there is none. */
  function PathTo(t: string, items: seq<Node>): (p: seq<string>)
    ensures p != [] <==> HitCount(t, items) > 0
    ensures p != [] ==> Includes(p[|p| - 1], t)
    decreases items
  {
    if items == [] then []
    else if Includes(items[0].id, t) then [items[0].id]
    else
      var below := PathTo(t, items[0].children);
      if below != [] then [items[0].id] + below else PathTo(t, items[1..])
  }

  /** On a fresh tree the path's ids are fresh ids too. */
  lemma {:induction false} PathToClean(t: string, items: seq<Node>)
    requires CleanIds(items)
    ensures forall j :: 0 <= j < |PathTo(t, items)| ==> PathTo(t, items)[j] != "" && ',' !in PathTo(t, items)[j]
    decreases items
  {
    if items != [] {
      CleanIdsParts(items);
      PathToClean(t, items[0].children);
      PathToClean(t, items[1..]);
    }
  }

  /** p names, root first, the ids on the way from a root of the forest down
      to a node whose id includes t; its length is that node's depth plus one. */
  predicate IsPathTo(t: string, items: seq<Node>, p: seq<string>)
    decreases items
  {
    exists k :: 0 <= k < |items| && |p| >= 1 && items[k].id == p[0] &&
      if |p| == 1 then Includes(items[k].id, t) else IsPathTo(t, items[k].children, p[1..])
  }

  /** PathTo is a root-to-node path in the forest. */
  lemma {:induction false} PathToIsPath(t: string, items: seq<Node>)
    requires HitCount(t, items) > 0
    ensures IsPathTo(t, items, PathTo(t, items))
    decreases items
  {
    var p := PathTo(t, items);
    var x := items[0];
    if Includes(x.id, t) {
      assert items[0].id == p[0];
    } else if PathTo(t, x.children) != [] {
      PathToIsPath(t, x.children);
      assert p[1..] == PathTo(t, x.children);
      assert items[0].id == p[0];
    } else {
      PathToIsPath(t, items[1..]);
      var k :| 0 <= k < |items[1..]| && |p| >= 1 && items[1..][k].id == p[0] &&
        if |p| == 1 then Includes(items[1..][k].id, t) else IsPathTo(t, items[1..][k].children, p[1..]);
      assert items[k + 1] == items[1..][k];
    }
  }

  /** The parent chain the finder builds below ancestors anc (root first):
      each level's id with the chain of the level above appended. */
  function ChainOf(anc: seq<string>): string
  {
    if anc == [] then "" else Chain(anc[|anc| - 1], ChainOf(anc[..|anc| - 1]))
  }

  /** Ancestors whose ids are non-empty, comma-free and do not include t. */
  predicate CleanAncestors(t: string, anc: seq<string>)
  {
    forall j :: 0 <= j < |anc| ==> anc[j] != "" && ',' !in anc[j] && !Includes(anc[j], t)
  }

  /** With non-empty ids, the chain is the ids joined by commas, deepest first. */
  lemma {:induction false} ChainOfJoin(anc: seq<string>)
    requires forall j :: 0 <= j < |anc| ==> anc[j] != ""
    ensures ChainOf(anc) == Join(Reversed(anc), ',')
    ensures ChainOf(anc) == "" <==> anc == []
  {
    if anc != [] {
      var init, id := anc[..|anc| - 1], anc[|anc| - 1];
      ChainOfJoin(init);
      assert anc == init + [id];
      ReversedAppend(init, [id]);
      var r := Reversed(anc);
      assert r == [id] + Reversed(init);
      assert r[1..] == Reversed(init);
      if init != [] {
        assert (id + [','] + ChainOf(init))[|id|] == ',';
      }
    }
  }

  /** A comma-free t is never found in the chain of clean ancestors. */
  lemma {:induction false} ChainOfExcludes(t: string, anc: seq<string>)
    requires anc != [] && CleanAncestors(t, anc) && ',' !in t
    ensures !Includes(ChainOf(anc), t)
  {
    var init, id := anc[..|anc| - 1], anc[|anc| - 1];
    if init != [] {
      ChainOfExcludes(t, init);
      ChainOfJoin(init);
      IncludesAcrossSeparator(id, ',', ChainOf(init), t);
    }
  }

  /** A node below clean ancestors gets the chain of its path, and that chain
      includes t exactly when the node's own id does. */
  lemma ChainBelow(t: string, anc: seq<string>, id: string)
    requires CleanAncestors(t, anc) && ',' !in t
    ensures Chain(id, ChainOf(anc)) == ChainOf(anc + [id])
    ensures Includes(ChainOf(anc + [id]), t) <==> Includes(id, t)
  {
    assert (anc + [id])[..|anc|] == anc;
    if anc != [] {
      ChainOfExcludes(t, anc);
      ChainOfJoin(anc);
      IncludesAcrossSeparator(id, ',', ChainOf(anc), t);
    }
  }

  /** A forest in which no id includes the comma-free t leaves findIds as it
      was, below any parent chain that does not include t itself: a used
      finder keeps returning its earlier result, even on a tree an earlier
      run has already rewritten. */
  lemma {:induction false} NoHitKeepsFound(t: string, items: seq<Node>, parentId: string, found: Option<string>)
    requires ',' !in t && (parentId == "" || !Includes(parentId, t))
    requires HitCount(t, items) == 0
    ensures IdsSearch(t, items, parentId, found).findIds == found
    decreases items
  {
    if items != [] {
      var x := items[0];
      var chain := Chain(x.id, parentId);
      if parentId != "" {
        IncludesAcrossSeparator(x.id, ',', parentId, t);
      }
      var inner := IdsSearch(t, x.children, chain, found);
      NoHitKeepsFound(t, x.children, chain, found);
      NoHitKeepsFound(t, items[1..], parentId, inner.findIds);
    }
  }

  /** The chain of clean ancestors is empty or does not include t. */
  lemma ChainOfClean(t: string, anc: seq<string>)
    requires CleanAncestors(t, anc) && ',' !in t
    ensures ChainOf(anc) == "" || !Includes(ChainOf(anc), t)
  {
    if anc != [] {
      ChainOfExcludes(t, anc);
    }
  }

  /** The search past a first node that does not match: its children, then
      the rest of the list. */
  lemma IdsSearchSkip(t: string, items: seq<Node>, parentId: string, found: Option<string>)
    requires items != [] && !Includes(Chain(items[0].id, parentId), t)
    ensures IdsSearch(t, items, parentId, found).findIds
      == IdsSearch(t, items[1..], parentId, IdsSearch(t, items[0].children, Chain(items[0].id, parentId), found).findIds).findIds
  {
  }

  /** Below clean ancestors anc, a forest with exactly one id including t
      records the chain of the path to that node. */
  lemma {:induction false} UniqueHitRecordsPath(t: string, items: seq<Node>, anc: seq<string>, found: Option<string>)
    requires CleanIds(items) && ',' !in t && CleanAncestors(t, anc)
    requires HitCount(t, items) == 1
    ensures IdsSearch(t, items, ChainOf(anc), found).findIds == Some(ChainOf(anc + PathTo(t, items)))
    decreases items, 2
  {
    var x := items[0];
    ChainBelow(t, anc, x.id);
    if !Includes(x.id, t) {
      UniqueHitBelow(t, items, anc, found);
    }
  }

  /** The case of UniqueHitRecordsPath where the first node does not match. */
  lemma {:induction false} UniqueHitBelow(t: string, items: seq<Node>, anc: seq<string>, found: Option<string>)
    requires CleanIds(items) && ',' !in t && CleanAncestors(t, anc)
    requires HitCount(t, items) == 1
    requires items != [] && !Includes(items[0].id, t)
    ensures IdsSearch(t, items, ChainOf(anc), found).findIds == Some(ChainOf(anc + PathTo(t, items)))
    decreases items, 1
  {
    var x := items[0];
    CleanIdsParts(items);
    ChainBelow(t, anc, x.id);
    CleanAncestorsExtend(t, anc, x.id);
    IdsSearchSkip(t, items, ChainOf(anc), found);
    if HitCount(t, x.children) == 1 {
      UniqueHitInChildren(t, items, anc, found, x, items[1..]);
      PathToBelow(t, items, anc);
    } else {
      UniqueHitInRest(t, items, anc, found, x, items[1..]);
    }
  }

  /** The match lies below the first node x, so the rest of the list only
      carries the recorded chain along. */
  lemma {:induction false} UniqueHitInChildren(t: string, items: seq<Node>, anc: seq<string>, found: Option<string>, x: Node, rest: seq<Node>)
    requires items != [] && x == items[0] && rest == items[1..]
    requires ',' !in t && CleanAncestors(t, anc) && CleanAncestors(t, anc + [x.id])
    requires CleanIds(x.children) && CleanIds(rest)
    requires HitCount(t, x.children) == 1 && HitCount(t, rest) == 0
    ensures IdsSearch(t, rest, ChainOf(anc), IdsSearch(t, x.children, ChainOf(anc + [x.id]), found).findIds).findIds
      == Some(ChainOf(anc + [x.id] + PathTo(t, x.children)))
    decreases items, 0
  {
    var anc' := anc + [x.id];
    UniqueHitRecordsPath(t, x.children, anc', found);
    ChainOfClean(t, anc);
    NoHitKeepsFound(t, rest, ChainOf(anc), Some(ChainOf(anc' + PathTo(t, x.children))));
  }

  /** No match lies below the first node x, so the search goes on in the rest
      of the list. */
  lemma {:induction false} UniqueHitInRest(t: string, items: seq<Node>, anc: seq<string>, found: Option<string>, x: Node, rest: seq<Node>)
    requires items != [] && x == items[0] && rest == items[1..]
    requires ',' !in t && CleanAncestors(t, anc) && CleanAncestors(t, anc + [x.id])
    requires CleanIds(x.children) && CleanIds(rest)
    requires HitCount(t, x.children) == 0 && HitCount(t, rest) == 1
    ensures IdsSearch(t, rest, ChainOf(anc), IdsSearch(t, x.children, ChainOf(anc + [x.id]), found).findIds).findIds
      == Some(ChainOf(anc + PathTo(t, rest)))
    decreases items, 0
  {
    ChainOfClean(t, anc + [x.id]);
    NoHitKeepsFound(t, x.children, ChainOf(anc + [x.id]), found);
    UniqueHitRecordsPath(t, rest, anc, found);
  }

  /** When the match lies below the first node, the path goes through it. */
  lemma PathToBelow(t: string, items: seq<Node>, anc: seq<string>)
    requires items != [] && !Includes(items[0].id, t) && HitCount(t, items[0].children) > 0
    ensures anc + [items[0].id] + PathTo(t, items[0].children) == anc + PathTo(t, items)
  {
  }

  lemma CleanAncestorsExtend(t: string, anc: seq<string>, id: string)
    requires CleanAncestors(t, anc) && id != "" && ',' !in id && !Includes(id, t)
    ensures CleanAncestors(t, anc + [id])
  {
    assert forall j :: 0 <= j < |anc| ==> (anc + [id])[j] == anc[j];
  }

  lemma CleanIdsParts(items: seq<Node>)
    requires CleanIds(items) && items != []
    ensures items[0].id != "" && ',' !in items[0].id
    ensures CleanIds(items[0].children) && CleanIds(items[1..])
  {
    assert forall i :: 0 <= i < |items[1..]| ==> items[1..][i] == items[i + 1];
  }

  /** On a fresh tree — ids non-empty and comma-free — with exactly one id
      including the comma-free target, a finder returns the path of ids from
      the root down to that node, whatever it held before. */
  lemma FinderReturnsPath(t: string, items: seq<Node>, found: Option<string>)
    requires CleanIds(items) && ',' !in t
    requires HitCount(t, items) == 1
    ensures IdsResult(IdsSearch(t, items, "", found).findIds) == PathTo(t, items)
    ensures IsPathTo(t, items, PathTo(t, items))
  {
    var p := PathTo(t, items);
    UniqueHitRecordsPath(t, items, [], found);
    assert [] + p == p;
    PathToClean(t, items);
    IdsResultOfChain(p);
    PathToIsPath(t, items);
  }

  /** Splitting and reversing the chain of a path of fresh ids gives the path. */
  lemma IdsResultOfChain(p: seq<string>)
    requires p != []
    requires forall j :: 0 <= j < |p| ==> p[j] != "" && ',' !in p[j]
    ensures IdsResult(Some(ChainOf(p))) == p
  {
    ChainOfJoin(p);
    var r := Reversed(p);
    assert forall j :: 0 <= j < |r| ==> ',' !in r[j];
    SplitJoin(r, ',');
    ReversedReversed(p);
  }

  /** The tree of debug.ts: 111111 > 222222 > 333333. */
  function DebugTree(): seq<Node>
  {
    [Node("111111", [Node("222222", [Node("333333", [], map["label" := Str("c")])], map["label" := Str("b")])], map["label" := Str("a")])]
  }

  /** The debug tree after findTreeIds('222222') has run over it once. */
  function DebugTreeOnce(): seq<Node>
  {
    [Node("111111", [Node("222222,111111", [Node("333333", [], map["label" := Str("c")])], map["label" := Str("b")])], map["label" := Str("a")])]
  }

  /** A one-node list whose node matches. */
  lemma IdsSearchSingleHit(t: string, x: Node, parentId: string, found: Option<string>)
    requires Includes(Chain(x.id, parentId), t)
    ensures IdsSearch(t, [x], parentId, found) == Outcome([x.(id := Chain(x.id, parentId))], Some(Chain(x.id, parentId)))
  {
    assert [x][1..] == [];
  }

  /** A one-node list whose node does not match: only its children are searched. */
  lemma IdsSearchSingleMiss(t: string, x: Node, parentId: string, found: Option<string>)
    requires !Includes(Chain(x.id, parentId), t)
    ensures var inner := IdsSearch(t, x.children, Chain(x.id, parentId), found);
      IdsSearch(t, [x], parentId, found) == Outcome([x.(id := Chain(x.id, parentId), children := inner.items)], inner.findIds)
  {
    assert [x][1..] == [];
  }

  /** The chains the two runs build. */
  lemma DebugChains()
    ensures Chain("111111", "") == "111111"
    ensures Chain("222222", "111111") == "222222,111111"
    ensures Chain("222222,111111", "111111") == "222222,111111,111111"
  {
  }

  /** Which of those chains include 222222. */
  lemma DebugMatches()
    ensures !Includes("111111", "222222")
    ensures Includes("222222,111111", "222222") && Includes("222222,111111,111111", "222222")
  {
    IncludesShort("111111", "222222");
    assert IsPrefix("222222", "222222,111111");
    assert IsPrefix("222222", "222222,111111,111111");
  }

  /** The first run rewrites 222222 into its chain and records it; 333333 is
      not visited. */
  lemma DebugFirstRun()
    ensures IdsSearch("222222", DebugTree(), "", None) == Outcome(DebugTreeOnce(), Some("222222,111111"))
  {
    var x := DebugTree()[0];
    DebugChains();
    DebugMatches();
    IdsSearchSingleHit("222222", x.children[0], "111111", None);
    IdsSearchSingleMiss("222222", x, "", None);
  }

  /** The second run on the rewritten tree appends the parent chain again. */
  lemma DebugSecondRun()
    ensures IdsSearch("222222", DebugTreeOnce(), "", Some("222222,111111")).findIds == Some("222222,111111,111111")
  {
    var x := DebugTreeOnce()[0];
    DebugChains();
    DebugMatches();
    IdsSearchSingleHit("222222", x.children[0], "111111", Some("222222,111111"));
    IdsSearchSingleMiss("222222", x, "", Some("222222,111111"));
  }

  /** The ids a finder returns for the chain of the first run. */
  lemma DebugResultOnce()
    ensures IdsResult(Some("222222,111111")) == ["111111", "222222"]
  {
    var p := ["111111", "222222"];
    assert p[..1] == ["111111"];
    assert ChainOf(p) == "222222,111111";
    IdsResultOfChain(p);
  }

  /** The ids a finder returns for the chain of the second run. */
  lemma DebugResultTwice()
    ensures IdsResult(Some("222222,111111,111111")) == ["111111", "111111", "222222"]
  {
    var p := ["111111", "111111", "222222"];
    var q := ["111111", "111111"];
    assert p[..2] == q && q[..1] == ["111111"];
    assert ChainOf(["111111"]) == "111111" by {
      assert ["111111"][..0] == [];
    }
    assert Chain("111111", "111111") == "111111,111111";
    assert ChainOf(q) == "111111,111111";
    assert Chain("222222", "111111,111111") == "222222,111111,111111";
    assert ChainOf(p) == "222222,111111,111111";
    IdsResultOfChain(p);
  }

  /** findTreeIds('222222') on the debug tree gives ['111111', '222222']; run
      again on the tree it rewrote, the same finder gives a duplicated chain. */
  lemma DebugExample()
    ensures IdsResult(IdsSearch("222222", DebugTree(), "", None).findIds) == ["111111", "222222"]
    ensures var once := IdsSearch("222222", DebugTree(), "", None);
      IdsResult(IdsSearch("222222", once.items, "", once.findIds).findIds) == ["111111", "111111", "222222"]
  {
    DebugFirstRun();
    DebugSecondRun();
    DebugResultOnce();
    DebugResultTwice();
  }
}
