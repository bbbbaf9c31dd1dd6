/** The process forest of evisum_engine.c. Processes are numbered by their position in the list. */
module Forest {
  import opened Bytes

  datatype Proc = Proc(pid: int, ppid: int)

  ghost predicate DistinctPids(procs: seq<Proc>)
  {
    forall i, j :: 0 <= i < j < |procs| ==> procs[i].pid != procs[j].pid
  }

  /** The first process, other than `c` itself, whose pid is the parent pid of `c`. */
  function ParentFrom(procs: seq<Proc>, c: nat, p: nat): (r: Option<nat>)
    requires c < |procs| && p <= |procs|
    ensures r.Some? ==> p <= r.value < |procs| && r.value != c && procs[r.value].pid == procs[c].ppid
    ensures r.None? ==> forall k :: p <= k < |procs| && k != c ==> procs[k].pid != procs[c].ppid
    ensures r.Some? ==> forall k :: p <= k < r.value && k != c ==> procs[k].pid != procs[c].ppid
    decreases |procs| - p
  {
    if p == |procs| then None
    else if p != c && procs[p].pid == procs[c].ppid then Some(p)
    else ParentFrom(procs, c, p + 1)
  }

  function Parent(procs: seq<Proc>, c: nat): (r: Option<nat>)
    requires c < |procs|
    ensures r.Some? ==> r.value < |procs| && r.value != c && procs[r.value].pid == procs[c].ppid
    ensures forall k :: 0 <= k < (if r.Some? then r.value else |procs|) && k != c ==> procs[k].pid != procs[c].ppid
  {
    ParentFrom(procs, c, 0)
  }

  /** The processes among the first `n` whose parent is `p`, in list order. */
  function Children(procs: seq<Proc>, p: Option<nat>, n: nat): seq<nat>
    requires n <= |procs|
  {
    if n == 0 then []
    else Children(procs, p, n - 1) + (if Parent(procs, n - 1) == p then [n - 1] else [])
  }

  lemma {:induction false} ChildrenAre(procs: seq<Proc>, p: Option<nat>, n: nat)
    requires n <= |procs|
    ensures forall c :: c in Children(procs, p, n) <==> 0 <= c < n && Parent(procs, c) == p
    ensures Ascending(Children(procs, p, n))
  {
    hide Parent, Ascending;
    if n == 0 {
      NoneAscend();
    } else {
      ChildrenAre(procs, p, n - 1);
      var before := Children(procs, p, n - 1);
      if Parent(procs, n - 1) == p {
        AscendingSnoc(before, n - 1);
      } else {
        NoMore(before);
      }
    }
  }

  lemma NoneAscend()
    ensures Ascending([])
  {
  }

  lemma AscendingSnoc(s: seq<nat>, x: nat)
    requires Ascending(s) && forall y :: y in s ==> y < x
    ensures Ascending(s + [x])
  {
    assert forall k :: 0 <= k < |s| ==> s[k] in s;
  }

  ghost predicate Ascending(s: seq<nat>)
  {
    forall i, j :: 0 <= i < j < |s| ==> s[i] < s[j]
  }

  // ----- Building the child lists -----

  lemma UniqueParent(procs: seq<Proc>, c: nat, p: nat)
    requires DistinctPids(procs) && c < |procs| && p < |procs| && procs[p].pid == procs[c].ppid
    ensures Parent(procs, c) == if p == c then None else Some(p)
  {
    match Parent(procs, c)
    case Some(q) => SamePid(procs, p, q);
    case None =>
  }

  lemma SamePid(procs: seq<Proc>, p: nat, q: nat)
    requires DistinctPids(procs) && p < |procs| && q < |procs| && procs[p].pid == procs[q].pid
    ensures p == q
  {
  }

  ghost predicate ListsUpTo(procs: seq<Proc>, kids: seq<seq<nat>>, n: nat)
    requires n <= |procs|
  {
    |kids| == |procs| && forall p :: 0 <= p < |procs| ==> kids[p] == Children(procs, Some(p), n)
  }

  lemma ListsStep(procs: seq<Proc>, kids: seq<seq<nat>>, n: nat)
    requires n < |procs| && ListsUpTo(procs, kids, n)
    ensures match Parent(procs, n)
            case None => ListsUpTo(procs, kids, n + 1)
            case Some(p) => ListsUpTo(procs, kids[p := kids[p] + [n]], n + 1)
  {
  }

  lemma NoneYet(procs: seq<Proc>, kids: seq<seq<nat>>)
    requires |kids| == |procs| && forall p :: 0 <= p < |kids| ==> kids[p] == []
    ensures ListsUpTo(procs, kids, 0) && Children(procs, None, 0) == []
  {
  }

  lemma NoParent(procs: seq<Proc>, c: nat)
    requires c < |procs| && forall k :: 0 <= k < |procs| ==> procs[k].pid != procs[c].ppid
    ensures Parent(procs, c).None?
  {
  }

  /** The table from pids to processes; which of several processes with the same pid it holds is left
      open. */
  method IndexByPid(procs: seq<Proc>) returns (byPid: map<int, nat>)
    ensures forall pid :: pid in byPid ==> byPid[pid] < |procs| && procs[byPid[pid]].pid == pid
    ensures forall k :: 0 <= k < |procs| ==> procs[k].pid in byPid
  {
    byPid := map[];
    var i := 0;
    while i < |procs|
      invariant 0 <= i <= |procs|
      invariant forall pid :: pid in byPid ==> byPid[pid] < |procs| && procs[byPid[pid]].pid == pid
      invariant forall k :: 0 <= k < i ==> procs[k].pid in byPid
    {
      byPid := byPid[procs[i].pid := i];
      i := i + 1;
    }
  }

  /** `p` is a parent that the table can give for `c`: another process with the pid; none only if there
      is no such process, or the table gives `c` itself. */
  ghost predicate FitsAsParent(procs: seq<Proc>, c: nat, p: Option<nat>)
    requires c < |procs|
  {
    match p
    case Some(q) => q < |procs| && q != c && procs[q].pid == procs[c].ppid
    case None => procs[c].pid == procs[c].ppid || forall k :: 0 <= k < |procs| ==> procs[k].pid != procs[c].ppid
  }

  lemma OnlyParentFits(procs: seq<Proc>, c: nat, p: Option<nat>)
    requires DistinctPids(procs) && c < |procs| && FitsAsParent(procs, c, p)
    ensures p == Parent(procs, c)
  {
    match p
    case Some(q) => UniqueParent(procs, c, q);
    case None =>
      if procs[c].pid == procs[c].ppid { UniqueParent(procs, c, c); } else { NoParent(procs, c); }
  }

  /** The processes among the first `n` that have the parent `p`, in list order. */
  function Grouped(parents: seq<Option<nat>>, p: Option<nat>, n: nat): seq<nat>
    requires n <= |parents|
  {
    if n == 0 then [] else Grouped(parents, p, n - 1) + (if parents[n - 1] == p then [n - 1] else [])
  }

  lemma {:induction false} GroupedMore(parents: seq<Option<nat>>, q: Option<nat>, p: Option<nat>, n: nat)
    requires n <= |parents|
    ensures Grouped(parents + [q], p, n) == Grouped(parents, p, n)
  {
    if n > 0 { GroupedMore(parents, q, p, n - 1); }
  }

  lemma GroupedStep(parents: seq<Option<nat>>, q: Option<nat>, p: Option<nat>)
    ensures var n := |parents|;
            Grouped(parents + [q], p, n + 1) == Grouped(parents, p, n) + (if q == p then [n] else [])
  {
    GroupedMore(parents, q, p, |parents|);
  }

  lemma {:induction false} GroupedAre(parents: seq<Option<nat>>, p: Option<nat>, n: nat)
    requires n <= |parents|
    ensures forall c :: c in Grouped(parents, p, n) <==> 0 <= c < n && parents[c] == p
    ensures Ascending(Grouped(parents, p, n))
  {
    if n > 0 {
      GroupedAre(parents, p, n - 1);
      var before := Grouped(parents, p, n - 1);
      assert forall k :: 0 <= k < |before| ==> before[k] in before;
    }
  }

  lemma {:induction false} GroupedIsChildren(procs: seq<Proc>, parents: seq<Option<nat>>, p: Option<nat>, n: nat)
    requires n <= |procs| == |parents| && forall c :: 0 <= c < |procs| ==> parents[c] == Parent(procs, c)
    ensures Grouped(parents, p, n) == Children(procs, p, n)
  {
    hide Parent;
    if n > 0 { GroupedIsChildren(procs, parents, p, n - 1); }
  }

  /** The lists that go with the parents of the first processes. */
  ghost predicate ListsOf(parents: seq<Option<nat>>, kids: seq<seq<nat>>, roots: seq<nat>)
  {
    && (forall p :: 0 <= p < |kids| ==> kids[p] == Grouped(parents, Some(p), |parents|))
    && roots == Grouped(parents, None, |parents|)
  }

  lemma ListsOfStep(parents: seq<Option<nat>>, kids: seq<seq<nat>>, roots: seq<nat>, q: Option<nat>)
    requires ListsOf(parents, kids, roots) && (q.Some? ==> q.value < |kids|)
    ensures var c := |parents|;
            match q
            case None => ListsOf(parents + [q], kids, roots + [c])
            case Some(p) => ListsOf(parents + [q], kids[p := kids[p] + [c]], roots)
  {
    GroupedStep(parents, q, None);
    forall p | 0 <= p < |kids|
      ensures Grouped(parents + [q], Some(p), |parents| + 1)
              == Grouped(parents, Some(p), |parents|) + (if q == Some(p) then [|parents|] else [])
    {
      GroupedStep(parents, q, Some(p));
    }
  }

  lemma ListsOfNothing(kids: seq<seq<nat>>)
    requires forall p :: 0 <= p < |kids| ==> kids[p] == []
    ensures ListsOf([], kids, [])
  {
  }

  lemma DistinctLists(procs: seq<Proc>, parents: seq<Option<nat>>, kids: seq<seq<nat>>, roots: seq<nat>)
    requires |parents| == |procs| == |kids| && ListsOf(parents, kids, roots)
    requires forall c :: 0 <= c < |procs| ==> FitsAsParent(procs, c, parents[c])
    ensures DistinctPids(procs) ==> ListsUpTo(procs, kids, |procs|) && roots == Children(procs, None, |procs|)
  {
    hide FitsAsParent, Parent, Grouped, Children;
    if DistinctPids(procs) {
      forall c | 0 <= c < |procs|
        ensures parents[c] == Parent(procs, c)
      {
        OnlyParentFits(procs, c, parents[c]);
      }
      GroupedIsChildren(procs, parents, None, |procs|);
      forall p | 0 <= p < |procs|
        ensures kids[p] == Children(procs, Some(p), |procs|)
      {
        GroupedIsChildren(procs, parents, Some(p), |procs|);
      }
    }
  }

  /** proc_info_all_children_get: parents are looked up by pid. With distinct pids the lists are those of
      the linear scan. */
  method BuildByHash(procs: seq<Proc>)
    returns (kids: array<seq<nat>>, roots: seq<nat>, ghost parents: seq<Option<nat>>)
    ensures fresh(kids) && kids.Length == |procs| == |parents| && ListsOf(parents, kids[..], roots)
    ensures forall c :: 0 <= c < |procs| ==> FitsAsParent(procs, c, parents[c])
    ensures DistinctPids(procs) ==> ListsUpTo(procs, kids[..], |procs|) && roots == Children(procs, None, |procs|)
  {
    hide Children, Parent, ListsUpTo, ListsOf;
    var byPid := IndexByPid(procs);
    kids := new seq<nat>[|procs|](_ => []);
    roots, parents := [], [];
    ListsOfNothing(kids[..]);
    var c := 0;
    while c < |procs|
      invariant 0 <= c == |parents| <= |procs| && kids.Length == |procs| && ListsOf(parents, kids[..], roots)
      invariant forall k :: 0 <= k < c ==> FitsAsParent(procs, k, parents[k])
    {
      ghost var before := kids[..];
      if procs[c].ppid in byPid && byPid[procs[c].ppid] != c {
        var p := byPid[procs[c].ppid];
        ListsOfStep(parents, before, roots, Some(p));
        parents := parents + [Some(p)];
        kids[p] := kids[p] + [c];
        assert kids[..] == before[p := before[p] + [c]];
      } else {
        ListsOfStep(parents, before, roots, None);
        parents := parents + [None];
        roots := roots + [c];
      }
      c := c + 1;
    }
    DistinctLists(procs, parents, kids[..], roots);
  }

  /** Even if pids repeat, roots and child lists together hold every process once, in list order. */
  lemma HashPartition(procs: seq<Proc>, parents: seq<Option<nat>>, kids: seq<seq<nat>>, roots: seq<nat>)
    requires |parents| == |procs| == |kids| && ListsOf(parents, kids, roots)
    requires forall c :: 0 <= c < |procs| ==> FitsAsParent(procs, c, parents[c])
    ensures Ascending(roots) && forall p :: 0 <= p < |kids| ==> Ascending(kids[p])
    ensures forall c :: 0 <= c < |procs| ==>
              if c in roots then forall p :: 0 <= p < |kids| ==> c !in kids[p]
              else exists p :: 0 <= p < |kids| && c in kids[p] && procs[p].pid == procs[c].ppid
                               && forall q :: 0 <= q < |kids| && c in kids[q] ==> q == p
    ensures forall p, c :: 0 <= p < |kids| && c in kids[p] ==> 0 <= c < |procs|
  {
    hide Grouped;
    GroupedAre(parents, None, |procs|);
    forall p | 0 <= p < |kids|
      ensures Ascending(kids[p]) && forall c :: c in kids[p] <==> 0 <= c < |procs| && parents[c] == Some(p)
    {
      GroupedAre(parents, Some(p), |procs|);
    }
    forall c | 0 <= c < |procs| && c !in roots
      ensures exists p :: 0 <= p < |kids| && c in kids[p] && procs[p].pid == procs[c].ppid
                          && forall q :: 0 <= q < |kids| && c in kids[q] ==> q == p
    {
      var p := parents[c].value;
      assert c in kids[p];
    }
  }

  /** _proc_info_child_add: the first parent that matches takes the child. */
  method ChildAdd(procs: seq<Proc>, kids: array<seq<nat>>, c: nat)
    requires c < |procs| && ListsUpTo(procs, kids[..], c)
    modifies kids
    ensures ListsUpTo(procs, kids[..], c + 1)
  {
    ListsStep(procs, kids[..], c);
    var p := 0;
    while p < |procs|
      invariant 0 <= p <= |procs| && ParentFrom(procs, c, p) == Parent(procs, c)
      invariant kids[..] == old(kids[..])
    {
      if p != c && procs[p].pid == procs[c].ppid {
        kids[p] := kids[p] + [c];
        return;
      }
      p := p + 1;
    }
  }

  method BuildByScan(procs: seq<Proc>) returns (kids: array<seq<nat>>)
    ensures fresh(kids) && ListsUpTo(procs, kids[..], |procs|)
  {
    kids := new seq<nat>[|procs|](_ => []);
    var c := 0;
    while c < |procs|
      invariant 0 <= c <= |procs| && ListsUpTo(procs, kids[..], c)
    {
      ChildAdd(procs, kids, c);
      c := c + 1;
    }
  }

  /** Both builders give the same lists, and roots and child lists together hold every process once. */
  lemma Partition(procs: seq<Proc>, a: seq<seq<nat>>, b: seq<seq<nat>>)
    requires ListsUpTo(procs, a, |procs|) && ListsUpTo(procs, b, |procs|)
    ensures a == b
    ensures Ascending(Children(procs, None, |procs|)) && forall p :: 0 <= p < |a| ==> Ascending(a[p])
    ensures forall c :: 0 <= c < |procs| ==>
              if c in Children(procs, None, |procs|) then forall p :: 0 <= p < |a| ==> c !in a[p]
              else exists p :: 0 <= p < |a| && c in a[p] && forall q :: 0 <= q < |a| && c in a[q] ==> q == p
    ensures forall p, c :: 0 <= p < |a| && c in a[p] ==> 0 <= c < |procs|
  {
    ChildrenAre(procs, None, |procs|);
    forall p | 0 <= p < |a|
      ensures Ascending(a[p]) && forall c :: c in a[p] <==> 0 <= c < |procs| && Parent(procs, c) == Some(p)
    {
      ChildrenAre(procs, Some(p), |procs|);
    }
    forall c | 0 <= c < |procs| && c !in Children(procs, None, |procs|)
      ensures exists p :: 0 <= p < |a| && c in a[p] && forall q :: 0 <= q < |a| && c in a[q] ==> q == p
    {
      var p := Parent(procs, c).value;
      assert c in a[p];
    }
  }

  // ----- Descendants -----

  /** Parents come strictly before their children in `depth`: the parent relation has no cycle. */
  ghost predicate Acyclic(procs: seq<Proc>, depth: seq<nat>)
  {
    && |depth| == |procs|
    && (forall c :: 0 <= c < |procs| ==> depth[c] < |procs|)
    && (forall c :: 0 <= c < |procs| && Parent(procs, c).Some? ==> depth[Parent(procs, c).value] < depth[c])
  }

  /** `x` is `root` or a child of something that descends from it. */
  ghost predicate Descends(procs: seq<Proc>, depth: seq<nat>, x: nat, root: nat)
    requires Acyclic(procs, depth) && x < |procs|
    decreases depth[x]
  {
    x == root || (Parent(procs, x).Some? && Descends(procs, depth, Parent(procs, x).value, root))
  }

  ghost function Kids(procs: seq<Proc>, i: nat): seq<nat>
  {
    Children(procs, Some(i), |procs|)
  }

  /** All of `list` are deeper than `level`. */
  ghost predicate Deeper(procs: seq<Proc>, depth: seq<nat>, list: seq<nat>, level: nat)
    requires |depth| == |procs|
  {
    forall k :: 0 <= k < |list| ==> list[k] < |procs| && level <= depth[list[k]]
  }

  lemma KidsDeeper(procs: seq<Proc>, depth: seq<nat>, i: nat)
    requires Acyclic(procs, depth) && i < |procs|
    ensures Deeper(procs, depth, Kids(procs, i), depth[i] + 1)
    ensures forall c :: c in Kids(procs, i) <==> 0 <= c < |procs| && Parent(procs, c) == Some(i)
    ensures Ascending(Kids(procs, i))
  {
    ChildrenAre(procs, Some(i), |procs|);
    var kids := Kids(procs, i);
    assert forall k :: 0 <= k < |kids| ==> kids[k] in kids;
  }

  /** A process, then the preorders of its children. */
  ghost function Preorder(procs: seq<Proc>, depth: seq<nat>, i: nat): seq<nat>
    requires Acyclic(procs, depth) && i < |procs|
    decreases |procs| - depth[i], 1, 0
  {
    KidsDeeper(procs, depth, i);
    [i] + PreorderAll(procs, depth, Kids(procs, i), depth[i] + 1)
  }

  ghost function PreorderAll(procs: seq<Proc>, depth: seq<nat>, list: seq<nat>, level: nat): seq<nat>
    requires Acyclic(procs, depth) && Deeper(procs, depth, list, level)
    decreases |procs| - level, 2, |list|
  {
    if list == [] then []
    else Preorder(procs, depth, list[0]) + PreorderAll(procs, depth, list[1..], level)
  }

  lemma {:induction false} InAll(procs: seq<Proc>, depth: seq<nat>, list: seq<nat>, level: nat, x: nat)
    requires Acyclic(procs, depth) && Deeper(procs, depth, list, level)
    ensures x in PreorderAll(procs, depth, list, level)
            <==> exists k :: 0 <= k < |list| && x in Preorder(procs, depth, list[k])
    decreases |list|
  {
    hide Preorder, Acyclic, Parent;
    if list != [] {
      var rest := list[1..];
      assert forall k :: 0 <= k < |rest| ==> rest[k] == list[k + 1];
      InAll(procs, depth, rest, level, x);
      if k :| 0 <= k < |list| && x in Preorder(procs, depth, list[k]) {
        if k > 0 { assert list[k] == rest[k - 1]; }
      }
    }
  }

  lemma InPreorder(procs: seq<Proc>, depth: seq<nat>, i: nat, x: nat)
    requires Acyclic(procs, depth) && i < |procs|
    ensures Deeper(procs, depth, Kids(procs, i), depth[i] + 1)
    ensures x in Preorder(procs, depth, i)
            <==> x == i || exists c :: c in Kids(procs, i) && x in Preorder(procs, depth, c)
  {
    hide Kids, Parent, Preorder, PreorderAll;
    PreorderSplit(procs, depth, i);
    var kids := Kids(procs, i);
    InAll(procs, depth, kids, depth[i] + 1, x);
    if k :| 0 <= k < |kids| && x in Preorder(procs, depth, kids[k]) {
      assert kids[k] in kids;
    }
    if c :| c in kids && x in Preorder(procs, depth, c) {
      var k :| 0 <= k < |kids| && kids[k] == c;
    }
  }

  lemma DescendsDepth(procs: seq<Proc>, depth: seq<nat>, x: nat, root: nat)
    requires Acyclic(procs, depth) && x < |procs| && Descends(procs, depth, x, root)
    ensures root < |procs| && depth[root] <= depth[x]
    decreases depth[x]
  {
    if x != root {
      DescendsDepth(procs, depth, Parent(procs, x).value, root);
    }
  }

  lemma {:induction false} DescendsStep(procs: seq<Proc>, depth: seq<nat>, x: nat, c: nat, i: nat)
    requires Acyclic(procs, depth) && x < |procs| && c < |procs| && Descends(procs, depth, x, c)
    requires Parent(procs, c) == Some(i)
    ensures Descends(procs, depth, x, i)
    decreases depth[x]
  {
    if x != c {
      DescendsStep(procs, depth, Parent(procs, x).value, c, i);
    }
  }

  lemma {:induction false} PreorderSound(procs: seq<Proc>, depth: seq<nat>, i: nat, x: nat)
    requires Acyclic(procs, depth) && i < |procs| && x in Preorder(procs, depth, i)
    ensures x < |procs| && Descends(procs, depth, x, i)
    decreases |procs| - depth[i]
  {
    hide Preorder, Kids, Parent;
    InPreorder(procs, depth, i, x);
    KidsDeeper(procs, depth, i);
    if x != i {
      var c :| c in Kids(procs, i) && x in Preorder(procs, depth, c);
      PreorderSound(procs, depth, c, x);
      DescendsStep(procs, depth, x, c, i);
    }
  }

  lemma {:induction false} PreorderClosed(procs: seq<Proc>, depth: seq<nat>, i: nat, p: nat, c: nat)
    requires Acyclic(procs, depth) && i < |procs| && p in Preorder(procs, depth, i)
    requires c < |procs| && Parent(procs, c) == Some(p)
    ensures c in Preorder(procs, depth, i)
    decreases |procs| - depth[i]
  {
    hide Preorder, Kids, Parent;
    InPreorder(procs, depth, i, p);
    InPreorder(procs, depth, i, c);
    KidsDeeper(procs, depth, i);
    if p == i {
      InPreorder(procs, depth, c, c);
    } else {
      var k :| k in Kids(procs, i) && p in Preorder(procs, depth, k);
      PreorderClosed(procs, depth, k, p, c);
    }
  }

  lemma {:induction false} PreorderComplete(procs: seq<Proc>, depth: seq<nat>, i: nat, x: nat)
    requires Acyclic(procs, depth) && i < |procs| && x < |procs| && Descends(procs, depth, x, i)
    ensures x in Preorder(procs, depth, i)
    decreases depth[x]
  {
    hide Preorder, Parent;
    InPreorder(procs, depth, i, i);
    if x != i {
      var p := Parent(procs, x).value;
      PreorderComplete(procs, depth, i, p);
      PreorderClosed(procs, depth, i, p, x);
    }
  }

  lemma {:induction false} Comparable(procs: seq<Proc>, depth: seq<nat>, x: nat, a: nat, b: nat)
    requires Acyclic(procs, depth) && x < |procs| && a < |procs| && b < |procs|
    requires Descends(procs, depth, x, a) && Descends(procs, depth, x, b)
    ensures Descends(procs, depth, a, b) || Descends(procs, depth, b, a)
    decreases depth[x]
  {
    if x != a && x != b {
      Comparable(procs, depth, Parent(procs, x).value, a, b);
    }
  }

  /** The families of two siblings have no member in common. */
  lemma SiblingsApart(procs: seq<Proc>, depth: seq<nat>, a: nat, b: nat, x: nat)
    requires Acyclic(procs, depth) && a < |procs| && b < |procs| && a != b
    requires Parent(procs, a).Some? && Parent(procs, a) == Parent(procs, b)
    requires x in Preorder(procs, depth, a)
    ensures x !in Preorder(procs, depth, b)
  {
    hide Preorder, Parent;
    if x in Preorder(procs, depth, b) {
      PreorderSound(procs, depth, a, x);
      PreorderSound(procs, depth, b, x);
      Comparable(procs, depth, x, a, b);
      var p := Parent(procs, a).value;
      if Descends(procs, depth, a, b) {
        DescendsDepth(procs, depth, p, b);
      } else {
        DescendsDepth(procs, depth, p, a);
      }
    }
  }

  lemma NoRepeatsJoin(a: seq<nat>, b: seq<nat>)
    requires NoRepeats(a) && NoRepeats(b) && forall x :: x in a ==> x !in b
    ensures NoRepeats(a + b)
  {
    var s := a + b;
    forall i, j | 0 <= i < j < |s|
      ensures s[i] != s[j]
    {
      if i < |a| <= j { assert s[i] in a && s[j] in b; }
    }
  }

  lemma {:induction false} PreorderNoRepeats(procs: seq<Proc>, depth: seq<nat>, i: nat)
    requires Acyclic(procs, depth) && i < |procs|
    ensures NoRepeats(Preorder(procs, depth, i))
    decreases |procs| - depth[i], 1, 0
  {
    hide Parent, Kids, NoRepeats;
    KidsDeeper(procs, depth, i);
    var kids := Kids(procs, i);
    assert forall k :: 0 <= k < |kids| ==> kids[k] in kids;
    AllNoRepeats(procs, depth, kids, depth[i] + 1, i);
    var rest := PreorderAll(procs, depth, kids, depth[i] + 1);
    if i in rest {
      InAll(procs, depth, kids, depth[i] + 1, i);
      var k :| 0 <= k < |kids| && i in Preorder(procs, depth, kids[k]);
      PreorderSound(procs, depth, kids[k], i);
      DescendsDepth(procs, depth, i, kids[k]);
    }
    Single(i);
    NoRepeatsJoin([i], rest);
  }

  lemma Single(i: nat)
    ensures NoRepeats([i])
  {
  }

  lemma {:induction false} AllNoRepeats(procs: seq<Proc>, depth: seq<nat>, list: seq<nat>, level: nat, p: nat)
    requires Acyclic(procs, depth) && Deeper(procs, depth, list, level) && Ascending(list)
    requires forall k :: 0 <= k < |list| ==> Parent(procs, list[k]) == Some(p)
    ensures NoRepeats(PreorderAll(procs, depth, list, level))
    decreases |procs| - level, 2, |list|
  {
    hide Parent, Preorder;
    if list != [] {
      var first, rest := list[0], list[1..];
      assert forall k :: 0 <= k < |rest| ==> rest[k] == list[k + 1];
      PreorderNoRepeats(procs, depth, first);
      AllNoRepeats(procs, depth, rest, level, p);
      forall x | x in Preorder(procs, depth, first)
        ensures x !in PreorderAll(procs, depth, rest, level)
      {
        InAll(procs, depth, rest, level, x);
        forall k | 0 <= k < |rest|
          ensures x !in Preorder(procs, depth, rest[k])
        {
          SiblingsApart(procs, depth, first, rest[k], x);
        }
      }
      NoRepeatsJoin(Preorder(procs, depth, first), PreorderAll(procs, depth, rest, level));
    }
  }

  /** The preorder of a process lists exactly its descendants, each once, itself first. */
  lemma PreorderExact(procs: seq<Proc>, depth: seq<nat>, i: nat)
    requires Acyclic(procs, depth) && i < |procs|
    ensures var s := Preorder(procs, depth, i);
            && s != [] && s[0] == i && NoRepeats(s)
            && (forall x :: x in s <==> 0 <= x < |procs| && Descends(procs, depth, x, i))
  {
    PreorderNoRepeats(procs, depth, i);
    forall x: nat
      ensures x in Preorder(procs, depth, i) <==> x < |procs| && Descends(procs, depth, x, i)
    {
      if x in Preorder(procs, depth, i) { PreorderSound(procs, depth, i, x); }
      if x < |procs| && Descends(procs, depth, x, i) { PreorderComplete(procs, depth, i, x); }
    }
  }

  // ----- The query -----

  lemma PreorderAllStep(procs: seq<Proc>, depth: seq<nat>, list: seq<nat>, level: nat, k: nat)
    requires Acyclic(procs, depth) && Deeper(procs, depth, list, level) && k < |list|
    ensures Deeper(procs, depth, list[k..], level) && Deeper(procs, depth, list[k + 1..], level)
    ensures Deeper(procs, depth, Kids(procs, list[k]), depth[list[k]] + 1)
    ensures PreorderAll(procs, depth, list[k..], level)
            == [list[k]] + PreorderAll(procs, depth, Kids(procs, list[k]), depth[list[k]] + 1)
               + PreorderAll(procs, depth, list[k + 1..], level)
  {
    hide Kids, Acyclic;
    assert list[k..][0] == list[k] && list[k..][1..] == list[k + 1..];
    KidsDeeper(procs, depth, list[k]);
  }

  lemma PreorderNothing(procs: seq<Proc>, depth: seq<nat>, level: nat)
    requires Acyclic(procs, depth)
    ensures Deeper(procs, depth, [], level) && PreorderAll(procs, depth, [], level) == []
  {
  }

  /** _proc_info_children_append: appends every child followed by its own descendants. The ghost
      arguments witness that the recursion ends. */
  method ChildrenAppend(kids: seq<seq<nat>>, wanted: seq<nat>, children: seq<nat>,
                        ghost procs: seq<Proc>, ghost depth: seq<nat>, ghost level: nat) returns (r: seq<nat>)
    requires Acyclic(procs, depth) && ListsUpTo(procs, kids, |procs|) && Deeper(procs, depth, children, level)
    ensures r == wanted + PreorderAll(procs, depth, children, level)
    decreases |procs| - level
  {
    hide PreorderAll, Parent, Children;
    r := wanted;
    var k := 0;
    ghost var all := PreorderAll(procs, depth, children, level);
    assert children[0..] == children;
    while k < |children|
      invariant 0 <= k <= |children| && Deeper(procs, depth, children[k..], level)
      invariant r + PreorderAll(procs, depth, children[k..], level) == wanted + all
    {
      var child := children[k];
      PreorderAllStep(procs, depth, children, level, k);
      ghost var below := PreorderAll(procs, depth, Kids(procs, child), depth[child] + 1);
      ghost var rest := PreorderAll(procs, depth, children[k + 1..], level);
      ghost var before := r;
      r := r + [child];
      if kids[child] != [] {
        DepthBound(procs, depth, child);
        r := ChildrenAppend(kids, r, kids[child], procs, depth, depth[child] + 1);
      } else {
        PreorderNothing(procs, depth, depth[child] + 1);
      }
      assert r == before + [child] + below;
      assert before + ([child] + below + rest) == r + rest;
      k := k + 1;
    }
    PreorderNothing(procs, depth, level);
    assert children[k..] == [] && r + [] == r;
  }

  lemma DepthBound(procs: seq<Proc>, depth: seq<nat>, i: nat)
    requires Acyclic(procs, depth) && i < |procs|
    ensures depth[i] < |procs|
  {
  }

  /** proc_info_pid_children_get: the process with the pid and all its descendants in preorder; the
      others are freed. */
  method ChildrenGet(procs: seq<Proc>, pid: int, ghost depth: seq<nat>) returns (wanted: seq<nat>, freed: seq<nat>)
    requires Acyclic(procs, depth)
    ensures (forall k :: 0 <= k < |procs| ==> procs[k].pid != pid) ==> wanted == []
    ensures forall i :: 0 <= i < |procs| && procs[i].pid == pid && (forall k :: 0 <= k < i ==> procs[k].pid != pid) ==>
              wanted == Preorder(procs, depth, i) && wanted[0] == i && NoRepeats(wanted)
              && forall x :: x in wanted <==> 0 <= x < |procs| && Descends(procs, depth, x, i)
    ensures Ascending(freed) && forall x :: x in freed <==> 0 <= x < |procs| && x !in wanted
  {
    hide Preorder, PreorderAll, Parent, Children, NoRepeats, Descends;
    var lists := BuildByScan(procs);
    var kids := lists[..];
    wanted := [];
    var i := 0;
    while i < |procs| && procs[i].pid != pid
      invariant 0 <= i <= |procs| && forall k :: 0 <= k < i ==> procs[k].pid != pid
    {
      i := i + 1;
    }
    if i < |procs| {
      wanted := [i];
      PreorderSplit(procs, depth, i);
      if kids[i] != [] {
        wanted := ChildrenAppend(kids, wanted, kids[i], procs, depth, depth[i] + 1);
      }
      PreorderExact(procs, depth, i);
    }
    freed := FreeRest(|procs|, wanted);
  }

  // ----- The order -----

  /** The preorders of a list's processes follow one another. */
  lemma {:induction false} PartOfAll(procs: seq<Proc>, depth: seq<nat>, list: seq<nat>, level: nat, k: nat)
    returns (at: nat)
    requires Acyclic(procs, depth) && Deeper(procs, depth, list, level) && k < |list|
    ensures At(PreorderAll(procs, depth, list, level), at, Preorder(procs, depth, list[k]))
    decreases |list|
  {
    hide Preorder, Acyclic, Parent;
    var first, rest := Preorder(procs, depth, list[0]), PreorderAll(procs, depth, list[1..], level);
    if k == 0 {
      at := 0;
      assert (first + rest)[..|first|] == first;
    } else {
      var n := PartOfAll(procs, depth, list[1..], level, k - 1);
      at := |first| + n;
      AtLater(first, rest, n, Preorder(procs, depth, list[k]));
    }
  }

  lemma AtLater(a: seq<nat>, b: seq<nat>, n: nat, piece: seq<nat>)
    requires At(b, n, piece)
    ensures At(a + b, |a| + n, piece)
  {
    assert (a + b)[|a| + n..|a| + n + |piece|] == b[n..n + |piece|];
  }

  lemma AtWithin(s: seq<nat>, i: nat, t: seq<nat>, j: nat, piece: seq<nat>)
    requires At(s, i, t) && At(t, j, piece)
    ensures At(s, i + j, piece)
  {
    forall k | 0 <= k < |piece|
      ensures s[i + j..i + j + |piece|][k] == piece[k]
    {
      assert s[i..i + |t|][j + k] == t[j..j + |piece|][k];
    }
  }

  /** A family stands together: what descends from `x` follows it without a gap, in the same order as in its
      own preorder. */
  lemma {:induction false} FamilyTogether(procs: seq<Proc>, depth: seq<nat>, i: nat, x: nat) returns (at: nat)
    requires Acyclic(procs, depth) && i < |procs| && x in Preorder(procs, depth, i)
    ensures x < |procs| && At(Preorder(procs, depth, i), at, Preorder(procs, depth, x))
    decreases |procs| - depth[i]
  {
    hide Preorder, Kids, Parent, PreorderAll;
    InPreorder(procs, depth, i, x);
    KidsDeeper(procs, depth, i);
    if x == i {
      at := 0;
      WholeAt(Preorder(procs, depth, i));
    } else {
      var c :| c in Kids(procs, i) && x in Preorder(procs, depth, c);
      var k :| 0 <= k < |Kids(procs, i)| && Kids(procs, i)[k] == c;
      var n := FamilyTogether(procs, depth, c, x);
      var m := PartOfAll(procs, depth, Kids(procs, i), depth[i] + 1, k);
      PreorderSplit(procs, depth, i);
      AtLater([i], PreorderAll(procs, depth, Kids(procs, i), depth[i] + 1), m, Preorder(procs, depth, c));
      AtWithin(Preorder(procs, depth, i), 1 + m, Preorder(procs, depth, c), n, Preorder(procs, depth, x));
      at := 1 + m + n;
    }
  }

  lemma {:induction false} InOrder(procs: seq<Proc>, depth: seq<nat>, list: seq<nat>, level: nat, k: nat, l: nat)
    returns (x: nat, y: nat)
    requires Acyclic(procs, depth) && Deeper(procs, depth, list, level) && k < l < |list|
    ensures var all := PreorderAll(procs, depth, list, level); x < y < |all| && all[x] == list[k] && all[y] == list[l]
    decreases |list|
  {
    hide Preorder, Acyclic, Parent;
    var first, rest := Preorder(procs, depth, list[0]), PreorderAll(procs, depth, list[1..], level);
    if k == 0 {
      RootFirst(procs, depth, list[0]);
      RootFirst(procs, depth, list[l]);
      var n := PartOfAll(procs, depth, list[1..], level, l - 1);
      AtFirst(rest, n, Preorder(procs, depth, list[l]));
      x, y := 0, |first| + n;
    } else {
      x, y := InOrder(procs, depth, list[1..], level, k - 1, l - 1);
      x, y := |first| + x, |first| + y;
    }
  }

  lemma AtFirst(s: seq<nat>, n: nat, piece: seq<nat>)
    requires At(s, n, piece) && piece != []
    ensures n < |s| && s[n] == piece[0]
  {
    assert s[n] == s[n..n + |piece|][0];
  }

  lemma RootFirst(procs: seq<Proc>, depth: seq<nat>, i: nat)
    requires Acyclic(procs, depth) && i < |procs|
    ensures Preorder(procs, depth, i) != [] && Preorder(procs, depth, i)[0] == i
  {
    hide PreorderAll, Kids, Parent;
    PreorderSplit(procs, depth, i);
  }

  /** Of two siblings, the one that comes first in the list comes first in the preorder, and both come after
      their parent. */
  lemma SiblingsInOrder(procs: seq<Proc>, depth: seq<nat>, a: nat, b: nat, p: nat) returns (x: nat, y: nat)
    requires Acyclic(procs, depth) && p < |procs| && a < b < |procs|
    requires Parent(procs, a) == Parent(procs, b) == Some(p)
    ensures var s := Preorder(procs, depth, p); 0 < x < y < |s| && s[0] == p && s[x] == a && s[y] == b
  {
    hide Preorder, PreorderAll, Kids, Parent;
    KidsDeeper(procs, depth, p);
    KidsAscend(procs, p);
    var kids := Kids(procs, p);
    assert a in kids && b in kids;
    var k :| 0 <= k < |kids| && kids[k] == a;
    var l :| 0 <= l < |kids| && kids[l] == b;
    assert k < l;
    x, y := InOrder(procs, depth, kids, depth[p] + 1, k, l);
    PreorderSplit(procs, depth, p);
    x, y := x + 1, y + 1;
  }

  lemma KidsAscend(procs: seq<Proc>, p: nat)
    ensures Ascending(Kids(procs, p))
  {
    ChildrenAre(procs, Some(p), |procs|);
  }

  lemma PreorderSplit(procs: seq<Proc>, depth: seq<nat>, i: nat)
    requires Acyclic(procs, depth) && i < |procs|
    ensures Deeper(procs, depth, Kids(procs, i), depth[i] + 1)
    ensures Preorder(procs, depth, i) == [i] + PreorderAll(procs, depth, Kids(procs, i), depth[i] + 1)
    ensures Kids(procs, i) == [] ==> Preorder(procs, depth, i) == [i]
  {
    KidsDeeper(procs, depth, i);
  }

  method FreeRest(n: nat, wanted: seq<nat>) returns (freed: seq<nat>)
    ensures Ascending(freed) && forall x :: x in freed <==> 0 <= x < n && x !in wanted
  {
    freed := [];
    var i := 0;
    while i < n
      invariant 0 <= i <= n && Ascending(freed)
      invariant forall x :: x in freed <==> 0 <= x < i && x !in wanted
    {
      if i !in wanted {
        assert forall k :: 0 <= k < |freed| ==> freed[k] in freed;
        freed := freed + [i];
      }
      i := i + 1;
    }
  }
}
