/** The order of the columns of a list: how a stored order is repaired and how dragging a header
    changes it. Only the positions from `first` to `max` are in use, and the first column is pinned. */
module ColumnOrder {
  import opened Bytes

  ghost predicate Within(s: seq<int>, lo: int, hi: int)
  {
    forall i :: 0 <= i < |s| ==> lo <= s[i] < hi
  }

  /** A permutation of the ids from `lo` to `hi` that starts with `lo`. */
  ghost predicate IsOrder(s: seq<int>, lo: int, hi: int)
  {
    |s| == hi - lo && NoRepeats(s) && Within(s, lo, hi) && s != [] && s[0] == lo
  }

  // ----- Repairing -----

  /** `lo`, then the first occurrences of the other valid ids. */
  function Kept(s: seq<int>, lo: int, hi: int): seq<int>
  {
    if s == [] then [lo]
    else
      var k, id := Kept(s[..|s| - 1], lo, hi), s[|s| - 1];
      if lo <= id < hi && id !in k then k + [id] else k
  }

  /** Appends the ids below `id` that are missing. */
  function Completed(k: seq<int>, lo: int, id: int): seq<int>
    decreases id - lo
  {
    if id <= lo then k
    else
      var c := Completed(k, lo, id - 1);
      if id - 1 in k then c else c + [id - 1]
  }

  function Sanitized(s: seq<int>, lo: int, hi: int): seq<int>
  {
    Completed(Kept(s, lo, hi), lo, hi)
  }

  lemma FirstWithin(s: seq<int>, lo: int, hi: int)
    requires Within(s, lo, hi) && s != []
    ensures lo < hi
  {
    assert lo <= s[0] < hi;
  }

  lemma TakeOutLast(s: seq<int>, lo: int, hi: int, k: nat)
    requires NoRepeats(s) && Within(s, lo, hi) && k < |s| && s[k] == hi - 1
    ensures var rest := s[..k] + s[k + 1..];
            NoRepeats(rest) && Within(rest, lo, hi - 1) && forall id :: id in rest ==> id in s
  {
    var rest := s[..k] + s[k + 1..];
    assert forall i :: 0 <= i < |rest| ==> rest[i] == s[if i < k then i else i + 1];
  }

  /** As many different ids as there are fit, and no more. */
  lemma {:induction false} Pigeonhole(s: seq<int>, lo: int, hi: int)
    requires NoRepeats(s) && Within(s, lo, hi) && lo <= hi
    ensures |s| <= hi - lo
    ensures |s| == hi - lo ==> forall id :: lo <= id < hi ==> id in s
    decreases hi - lo
  {
    hide NoRepeats;
    if s == [] {
      return;
    }
    FirstWithin(s, lo, hi);
    if hi - 1 in s {
      var k :| 0 <= k < |s| && s[k] == hi - 1;
      TakeOutLast(s, lo, hi, k);
      Pigeonhole(s[..k] + s[k + 1..], lo, hi - 1);
    } else {
      Pigeonhole(s, lo, hi - 1);
    }
  }

  lemma {:induction false} AtLeast(s: seq<int>, lo: int, hi: int)
    requires lo <= hi && forall id :: lo <= id < hi ==> id in s
    ensures hi - lo <= |s|
    decreases hi - lo
  {
    if lo < hi {
      assert hi - 1 in s;
      var k :| 0 <= k < |s| && s[k] == hi - 1;
      var rest := s[..k] + s[k + 1..];
      forall id | lo <= id < hi - 1
        ensures id in rest
      {
        assert id in s;
        var j :| 0 <= j < |s| && s[j] == id;
        if j < k { assert rest[j] == id; } else { assert rest[j - 1] == id; }
      }
      AtLeast(rest, lo, hi - 1);
    }
  }

  lemma NoRepeatsSnoc(s: seq<int>, id: int)
    requires NoRepeats(s) && id !in s
    ensures NoRepeats(s + [id])
  {
  }

  lemma {:induction false} KeptFacts(s: seq<int>, lo: int, hi: int)
    requires lo < hi
    ensures var k := Kept(s, lo, hi);
            && k != [] && k[0] == lo && NoRepeats(k) && Within(k, lo, hi)
            && forall id :: id in k <==> id == lo || (id in s && lo <= id < hi)
    decreases |s|
  {
    if s != [] {
      var n := |s| - 1;
      KeptFacts(s[..n], lo, hi);
      assert s == s[..n] + [s[n]];
      var k := Kept(s[..n], lo, hi);
      if s[n] !in k { NoRepeatsSnoc(k, s[n]); }
    }
  }

  lemma {:induction false} CompletedFacts(k: seq<int>, lo: int, id: int, hi: int)
    requires lo <= id <= hi && NoRepeats(k) && Within(k, lo, hi)
    ensures var c := Completed(k, lo, id);
            && k <= c && NoRepeats(c) && Within(c, lo, hi)
            && forall x :: x in c <==> x in k || lo <= x < id
    decreases id - lo
  {
    if lo < id {
      CompletedFacts(k, lo, id - 1, hi);
      if id - 1 !in k { NoRepeatsSnoc(Completed(k, lo, id - 1), id - 1); }
    }
  }

  /** Whatever was stored, the repaired order is a permutation with the first column pinned. */
  lemma SanitizedIsOrder(s: seq<int>, lo: int, hi: int)
    requires lo < hi
    ensures IsOrder(Sanitized(s, lo, hi), lo, hi)
    ensures Kept(s, lo, hi) <= Sanitized(s, lo, hi)
  {
    KeptFacts(s, lo, hi);
    CompletedFacts(Kept(s, lo, hi), lo, hi, hi);
    Pigeonhole(Sanitized(s, lo, hi), lo, hi);
    AtLeast(Sanitized(s, lo, hi), lo, hi);
  }

  /** The columns that were missing follow in ascending order. */
  lemma {:induction false} MissingAscend(k: seq<int>, lo: int, id: int, i: nat, j: nat)
    requires |k| <= i < j < |Completed(k, lo, id)|
    ensures lo <= Completed(k, lo, id)[i] < Completed(k, lo, id)[j] < id
    decreases id - lo
  {
    if lo < id {
      if j < |Completed(k, lo, id - 1)| { MissingAscend(k, lo, id - 1, i, j); } else { MissingBelow(k, lo, id - 1, i); }
    }
  }

  lemma {:induction false} MissingBelow(k: seq<int>, lo: int, id: int, i: nat)
    requires |k| <= i < |Completed(k, lo, id)|
    ensures lo <= Completed(k, lo, id)[i] < id
    decreases id - lo
  {
    if lo < id && i < |Completed(k, lo, id - 1)| { MissingBelow(k, lo, id - 1, i); }
  }

  /** The first position of `id`. */
  function First(s: seq<int>, id: int): (k: nat)
    ensures k <= |s| && (k < |s| <==> id in s) && (k < |s| ==> s[k] == id)
    ensures forall i :: 0 <= i < k ==> s[i] != id
  {
    if s == [] || s[0] == id then 0 else 1 + First(s[1..], id)
  }

  lemma FirstIs(s: seq<int>, id: int, k: nat)
    requires k < |s| && s[k] == id && forall i :: 0 <= i < k ==> s[i] != id
    ensures First(s, id) == k
  {
  }

  lemma FirstPrefix(s: seq<int>, n: nat, id: int)
    requires n <= |s| && id in s[..n]
    ensures First(s, id) == First(s[..n], id) < n
  {
    FirstIs(s, id, First(s[..n], id));
  }

  /** The columns that are kept stay in the order of their first occurrences. */
  lemma {:induction false} KeptInOrder(s: seq<int>, lo: int, hi: int, i: nat, j: nat)
    requires lo < hi && 1 <= i < j < |Kept(s, lo, hi)|
    ensures First(s, Kept(s, lo, hi)[i]) < First(s, Kept(s, lo, hi)[j]) < |s|
    decreases |s|
  {
    if s != [] {
      var n := |s| - 1;
      var k := Kept(s[..n], lo, hi);
      KeptFacts(s[..n], lo, hi);
      assert k[i] in k && k[i] != k[0];
      FirstPrefix(s, n, k[i]);
      if j < |k| {
        KeptInOrder(s[..n], lo, hi, i, j);
        assert k[j] in k && k[j] != k[0];
        FirstPrefix(s, n, k[j]);
      } else {
        assert forall q :: 0 <= q < n ==> s[q] == s[..n][q];
        assert s[n] !in s[..n];
        FirstIs(s, s[n], n);
      }
    }
  }

  lemma {:induction false} KeptFixed(s: seq<int>, lo: int, hi: int, n: nat)
    requires IsOrder(s, lo, hi) && 1 <= n <= |s|
    ensures Kept(s[..n], lo, hi) == s[..n]
    decreases n
  {
    assert s[..n][..n - 1] == s[..n - 1];
    if n > 1 {
      KeptFixed(s, lo, hi, n - 1);
      assert s[n - 1] !in s[..n - 1];
      assert s[..n] == s[..n - 1] + [s[n - 1]];
    } else {
      assert Kept(s[..0], lo, hi) == [lo];
      assert s[..1] == [lo];
    }
  }

  lemma {:induction false} CompletedFixed(k: seq<int>, lo: int, id: int)
    requires forall x :: lo <= x < id ==> x in k
    ensures Completed(k, lo, id) == k
    decreases id - lo
  {
    if lo < id { CompletedFixed(k, lo, id - 1); }
  }

  /** Repairing leaves exactly the good orders as they are; so repairing twice is repairing once. */
  lemma SanitizedFixed(s: seq<int>, lo: int, hi: int)
    requires lo < hi
    ensures Sanitized(s, lo, hi) == s <==> IsOrder(s, lo, hi)
    ensures Sanitized(Sanitized(s, lo, hi), lo, hi) == Sanitized(s, lo, hi)
  {
    SanitizedIsOrder(s, lo, hi);
    if IsOrder(s, lo, hi) { OrderIsFixed(s, lo, hi); }
    OrderIsFixed(Sanitized(s, lo, hi), lo, hi);
  }

  lemma OrderIsFixed(s: seq<int>, lo: int, hi: int)
    requires lo < hi && IsOrder(s, lo, hi)
    ensures Sanitized(s, lo, hi) == s
  {
    KeptFixed(s, lo, hi, |s|);
    assert s[..|s|] == s;
    Pigeonhole(s, lo, hi);
    CompletedFixed(s, lo, hi);
  }

  // ----- Moving -----

  /** `s` with the element at `from` taken out and put in at `to`. */
  function Moved(s: seq<int>, from: nat, to: nat): seq<int>
    requires from < |s| && to < |s|
  {
    var rest := s[..from] + s[from + 1..];
    rest[..to] + [s[from]] + rest[to..]
  }

  function Without(s: seq<int>, k: nat): seq<int>
    requires k < |s|
  {
    s[..k] + s[k + 1..]
  }

  /** Where the element at `k` was before the move. */
  function Origin(from: nat, to: nat, k: nat): (r: nat)
    ensures r == k || from <= r <= to || to <= r <= from
  {
    if k == to then from
    else
      var q := if k < to then k else k - 1;
      if q < from then q else q + 1
  }

  lemma MovedAt(s: seq<int>, from: nat, to: nat)
    requires from < |s| && to < |s|
    ensures var r := Moved(s, from, to);
            |r| == |s| && forall k :: 0 <= k < |r| ==> Origin(from, to, k) < |s| && r[k] == s[Origin(from, to, k)]
  {
  }

  /** A move keeps the order of all other columns. */
  lemma MovedWithout(s: seq<int>, from: nat, to: nat)
    requires from < |s| && to < |s|
    ensures var r := Moved(s, from, to);
            |r| == |s| && r[to] == s[from] && Without(r, to) == Without(s, from)
  {
    var rest := Without(s, from);
    assert Moved(s, from, to) == rest[..to] + [s[from]] + rest[to..];
    assert Without(Moved(s, from, to), to) == rest[..to] + rest[to..];
  }

  /** A move among the other columns leaves a permutation with the first column pinned. */
  lemma MovedIsOrder(s: seq<int>, from: nat, to: nat, lo: int, hi: int)
    requires from < |s| && to < |s| && IsOrder(s, lo, hi) && from > 0 && to > 0
    ensures IsOrder(Moved(s, from, to), lo, hi)
  {
    hide Moved;
    MovedAt(s, from, to);
    var r := Moved(s, from, to);
    forall i, j | 0 <= i < j < |r|
      ensures r[i] != r[j]
    {
      var i', j' := Origin(from, to, i), Origin(from, to, j);
      assert i' != j';
      if i' < j' { assert s[i'] != s[j']; } else { assert s[j'] != s[i']; }
    }
    assert Origin(from, to, 0) == 0;
  }

  lemma OriginShift(from: nat, to: nat, first: nat, k: nat)
    requires first <= from && first <= to && first <= k
    ensures Origin(from, to, k) == first + Origin(from - first, to - first, k - first)
  {
  }

  lemma OriginOutside(from: nat, to: nat, k: nat)
    requires (k < from && k < to) || (k > from && k > to)
    ensures Origin(from, to, k) == k
  {
  }

  lemma MovedPart(s: seq<int>, r: seq<int>, first: nat, max: nat, from: nat, to: nat)
    requires first <= from < max <= |s| == |r| && first <= to < max
    requires forall k :: 0 <= k < |s| ==> r[k] == s[Origin(from, to, k)]
    ensures r[first..max] == Moved(s[first..max], from - first, to - first)
    ensures r[..first] == s[..first] && r[max..] == s[max..]
  {
    hide Moved, Origin;
    var part := s[first..max];
    MovedAt(part, from - first, to - first);
    forall k | 0 <= k < max - first
      ensures r[first..max][k] == Moved(part, from - first, to - first)[k]
    {
      OriginShift(from, to, first, first + k);
      assert r[first + k] == s[Origin(from, to, first + k)];
    }
    forall k | 0 <= k < first || max <= k < |s|
      ensures r[k] == s[k]
    {
      OriginOutside(from, to, k);
    }
  }

  /** One change of the order: a repair, a move among the columns that are not pinned, or none. */
  ghost predicate Change(s: seq<int>, r: seq<int>, lo: int, hi: int)
  {
    || r == s
    || r == Sanitized(s, lo, hi)
    || exists from: nat, to: nat :: 0 < from < |s| && 0 < to < |s| && r == Moved(s, from, to)
  }

  /** After the first repair, every state of every run is a permutation with the first column pinned. */
  lemma {:induction false} RunIsOrder(states: seq<seq<int>>, lo: int, hi: int, n: nat)
    requires lo < hi && 1 <= n < |states| && states[1] == Sanitized(states[0], lo, hi)
    requires forall i :: 0 <= i < |states| - 1 ==> Change(states[i], states[i + 1], lo, hi)
    ensures IsOrder(states[n], lo, hi)
  {
    hide Moved, Sanitized, IsOrder;
    SanitizedIsOrder(states[n - 1], lo, hi);
    if n > 1 {
      RunIsOrder(states, lo, hi, n - 1);
      var s, r := states[n - 1], states[n];
      assert Change(states[n - 1], states[n - 1 + 1], lo, hi);
      if r != s && r != Sanitized(s, lo, hi) {
        var from: nat, to: nat :| 0 < from < |s| && 0 < to < |s| && r == Moved(s, from, to);
        MovedIsOrder(s, from, to, lo, hi);
      }
    }
  }

  // ----- Dropping -----

  /** Where the header button of a column is, if it has one and the column is enabled. */
  datatype Button = Button(x: int, width: nat)

  /** Half the width is rounded down, as in C. */
  function Middle(b: Button): int
  {
    b.x + b.width / 2
  }

  /** What is left of the position `to` has its middle at or left of `x`; and either the next column is
      shown and has its middle right of `x`, or no column further right is shown. The first column and
      the dragged one do not count. */
  ghost predicate FitsAt(r: seq<int>, to: nat, buttons: map<int, Button>, x: int)
  {
    && (forall k :: 1 <= k < |r| && k < to && r[k] in buttons ==> Middle(buttons[r[k]]) <= x)
    && (|| (to + 1 < |r| && r[to + 1] in buttons && x < Middle(buttons[r[to + 1]]))
        || forall k :: 0 <= to < k < |r| ==> r[k] !in buttons)
  }

  /** Where the walk over the header buttons stops. */
  ghost predicate StopsAt(s: seq<int>, drop: nat, drag: int, buttons: map<int, Button>, x: int)
  {
    && (forall k :: 1 <= k < |s| && k < drop && s[k] in buttons && s[k] != drag ==> Middle(buttons[s[k]]) <= x)
    && (|| (drop < |s| && s[drop] in buttons && s[drop] != drag && x < Middle(buttons[s[drop]]))
        || (drop <= |s| && forall k :: drop <= k < |s| && s[k] in buttons ==> s[k] == drag))
  }

  lemma DropFits(s: seq<int>, from: nat, drop: nat, to: nat, buttons: map<int, Button>, x: int)
    requires 0 < from < |s| && 0 < drop <= |s| && NoRepeats(s)
    requires StopsAt(s, drop, s[from], buttons, x) && to == if drop > from then drop - 1 else drop
    ensures 0 < to < |s| && FitsAt(Moved(s, from, to), to, buttons, x)
  {
    hide Moved, Middle;
    MovedAt(s, from, to);
    var r := Moved(s, from, to);
    assert forall k :: 0 <= k < |s| && k != from ==> s[k] != s[from];
    forall k | 1 <= k < |r| && k < to && r[k] in buttons
      ensures Middle(buttons[r[k]]) <= x
    {
      var o := Origin(from, to, k);
      assert 1 <= o < drop && o != from;
    }
    if drop < |s| && s[drop] in buttons && s[drop] != s[from] && x < Middle(buttons[s[drop]]) {
      assert Origin(from, to, to + 1) == drop;
    } else {
      forall k | 0 <= to < k < |r|
        ensures r[k] !in buttons
      {
        var o := Origin(from, to, k);
        assert drop <= o && o != from;
      }
    }
  }

  lemma DropMoves(s: seq<int>, from: nat, to: nat, lo: int, hi: int)
    requires IsOrder(s, lo, hi) && 0 < from < |s| && 0 < to < |s|
    ensures var r := Moved(s, from, to);
            && IsOrder(r, lo, hi) && Change(s, r, lo, hi) && (r == s <==> from == to)
            && |r| == |s| && r[to] == s[from] && Without(r, to) == Without(s, from)
  {
    MovedIsOrder(s, from, to, lo, hi);
    MovedWithout(s, from, to);
    if from == to {
      assert Moved(s, from, to) == s;
    } else {
      assert s[if from < to then from else to] != s[if from < to then to else from];
    }
  }

  lemma SamePosition(s: seq<int>, i: nat, j: nat)
    requires NoRepeats(s) && i < |s| && j < |s| && s[i] == s[j]
    ensures i == j
  {
  }

  // ----- The widget -----

  class Columns {
    const first: nat
    const max: nat
    const order: array<int>

    ghost predicate Valid()
      reads this
    {
      first < max <= order.Length
    }

    ghost function Order(): seq<int>
      reads this, order
      requires Valid()
    {
      order[first..max]
    }

    constructor (first: nat, max: nat, order: array<int>)
      requires first < max <= order.Length
      ensures Valid() && this.first == first && this.max == max && this.order == order
    {
      this.first, this.max, this.order := first, max, order;
    }

    /** _evisum_ui_widget_exel_field_order_sanitize. */
    method Sanitize()
      requires Valid()
      modifies order
      ensures Order() == Sanitized(old(Order()), first, max) && IsOrder(Order(), first, max)
      ensures order[..first] == old(order[..first]) && order[max..] == old(order[max..])
    {
      ghost var s := Order();
      hide Kept, Completed, NoRepeats, IsOrder, Filled, Sanitized;
      var out := new int[max](_ => 0);
      var seen := new bool[max](_ => false);
      out[first] := first;
      seen[first] := true;
      FilledStart(out[..], seen[..], first, max);
      var pos := KeepFirsts(out, seen);
      pos := FillMissing(out, seen, pos, Kept(s, first, max));
      SanitizedIsOrder(s, first, max);
      SanitizedIs(s, first, max);
      CopyBack(out, Sanitized(s, first, max));
    }

    /** Keeps the ids that are valid and have not been seen. */
    method KeepFirsts(out: array<int>, seen: array<bool>) returns (pos: nat)
      requires Valid() && out.Length == seen.Length == max && out != order
      requires Filled(out[..], seen[..], first, first + 1, Kept([], first, max))
      modifies out, seen
      ensures pos <= max && Filled(out[..], seen[..], first, pos, Kept(Order(), first, max))
    {
      hide Kept, Filled;
      ghost var s := Order();
      assert s[..0] == [] && s[..max - first] == s;
      pos := first + 1;
      var i := first;
      while i < max
        invariant first <= i <= max && pos <= max && s == Order()
        invariant Filled(out[..], seen[..], first, pos, Kept(s[..i - first], first, max))
      {
        var id := order[i];
        ghost var k := Kept(s[..i - first], first, max);
        KeptStep(s, i - first, first, max);
        if first <= id < max {
          FilledStep(out[..], seen[..], first, pos, k, id);
          if !seen[id] {
            ghost var o, n := out[..], seen[..];
            out[pos] := id;
            seen[id] := true;
            assert out[..] == o[pos := id] && seen[..] == n[id := true];
            pos := pos + 1;
          }
        }
        i := i + 1;
      }
    }

    /** Appends the ids that were not seen. */
    method FillMissing(out: array<int>, seen: array<bool>, pos0: nat, ghost k: seq<int>) returns (pos: nat)
      requires Valid() && out != order && out.Length == max && pos0 <= max && seen.Length == max
      requires Filled(out[..], seen[..], first, pos0, k)
      modifies out
      ensures pos <= max && first <= pos && out[first..pos] == Completed(k, first, max)
    {
      hide Completed, NoRepeats, Filled;
      pos := pos0;
      FilledSlice(out[..], seen[..], first, pos, k);
      var id := first;
      while id < max
        invariant first <= id <= max && first <= pos <= max && out[first..pos] == Completed(k, first, id)
        invariant Filled(old(out[..]), seen[..], first, pos0, k)
      {
        MissingStep(old(out[..]), seen[..], first, pos0, k, id);
        if !seen[id] {
          ghost var before := out[first..pos];
          out[pos] := id;
          assert out[first..pos + 1] == before + [id];
          pos := pos + 1;
        }
        id := id + 1;
      }
    }

    /** _evisum_ui_widget_exel_field_order_pos_get. */
    method PositionOf(id: int) returns (pos: int)
      requires Valid()
      ensures pos == -1 <==> id !in Order()
      ensures pos != -1 ==> first <= pos < max && order[pos] == id
      ensures pos != -1 ==> forall k :: first <= k < pos ==> order[k] != id
    {
      pos := first;
      while pos < max
        invariant first <= pos <= max && forall k :: first <= k < pos ==> order[k] != id
      {
        if order[pos] == id {
          assert Order()[pos - first] == id;
          return;
        }
        pos := pos + 1;
      }
      pos := -1;
    }

    /** _evisum_ui_widget_exel_field_order_move_to_pos; `from` is where the column was. */
    method MoveToPos(id: int, toPos: int) returns (changed: bool, ghost from: int)
      requires Valid()
      modifies order
      ensures order[..first] == old(order[..first]) && order[max..] == old(order[max..])
      ensures changed <==> first <= id < max && id in old(Order()) && from != Target(toPos)
      ensures id in old(Order()) && first <= id < max ==> first <= from < max && old(order[from]) == id
      ensures Order() == if changed then Moved(old(Order()), from - first, Target(toPos) - first) else old(Order())
    {
      hide Moved;
      changed, from := false, -1;
      if id < first || id >= max { return; }
      var to := Target(toPos);
      var at := PositionOf(id);
      from := at;
      if at < 0 || at == to { return; }
      MoveElement(at, to);
      changed := true;
    }

    method MoveElement(from: nat, to: nat)
      requires Valid() && first <= from < max && first <= to < max && from != to
      modifies order
      ensures order[..first] == old(order[..first]) && order[max..] == old(order[max..])
      ensures Order() == Moved(old(Order()), from - first, to - first)
    {
      hide Moved;
      ghost var before := order[..];
      MoveInArray(from, to);
      MovedPart(before, order[..], first, max, from, to);
    }

    method MoveInArray(from: nat, to: nat)
      requires Valid() && first <= from < max && first <= to < max && from != to
      modifies order
      ensures forall k :: 0 <= k < order.Length ==> order[k] == old(order[Origin(from, to, k)])
    {
      var value := order[from];
      if from < to {
        ShiftLeft(from, to);
      } else {
        ShiftRight(from, to);
      }
      order[to] := value;
    }

    /** The position a column is really moved to: not in front of the second one, unless there is
        only one. */
    function Target(toPos: int): (r: nat)
      requires first < max
      ensures first <= r < max && (first + 1 < max ==> first < r)
      ensures if first < toPos < max then r == toPos
              else if toPos >= max then r == max - 1
              else r == first + 1 || r == first == max - 1
    {
      var least := if first + 1 >= max then first else first + 1;
      var to := if toPos < least then least else toPos;
      if to >= max then max - 1 else to
    }

    /** _evisum_ui_widget_exel_drop_pos_get, for the columns whose header button is shown. */
    method DropPos(x: int, drag: int, buttons: map<int, Button>) returns (drop: nat)
      requires Valid()
      ensures first <= drop <= max && (first + 1 < max ==> first < drop)
      ensures StopsAt(Order(), drop - first, drag, buttons, x)
    {
      var least := if first + 1 >= max then first else first + 1;
      var lastVisible := least;
      ghost var s := Order();
      var i := least;
      while i < max
        invariant least <= i <= max && least <= lastVisible && (lastVisible < i || lastVisible == least)
        invariant forall k :: 1 <= k < i - first && s[k] in buttons && s[k] != drag ==> Middle(buttons[s[k]]) <= x
        invariant forall k :: lastVisible - first < k < i - first && s[k] in buttons ==> s[k] == drag
      {
        var id := order[i];
        assert s[i - first] == id;
        if id in buttons && id != drag {
          if x < Middle(buttons[id]) { return i; }
          lastVisible := i;
        }
        i := i + 1;
      }
      drop := lastVisible + 1;
    }

    /** _evisum_ui_widget_exel_reorder_commit. The first column cannot be dragged; `at` is where the
        dragged one ends up. */
    method ReorderCommit(x: int, drag: int, buttons: map<int, Button>) returns (changed: bool, ghost at: nat)
      requires Valid() && first < drag < max && IsOrder(Order(), first, max)
      modifies order
      ensures order[..first] == old(order[..first]) && order[max..] == old(order[max..])
      ensures IsOrder(Order(), first, max) && changed == (Order() != old(Order()))
      ensures Change(old(Order()), Order(), first, max)
      ensures 0 < at < |Order()| && Order()[at] == drag && FitsAt(Order(), at, buttons, x)
      ensures exists from: nat {:trigger Without(old(Order()), from)} ::
                from < max - first && Without(Order(), at) == Without(old(Order()), from) && old(Order())[from] == drag
    {
      hide Moved, NoRepeats, FitsAt, StopsAt, Within, Change, Without;
      ghost var s := Order();
      var drop := DropPos(x, drag, buttons);
      var from := PositionOf(drag);
      Pigeonhole(s, first, max);
      var to := if drop > from then drop - 1 else drop;
      ghost var f := from - first;
      assert s[f] == drag;
      DropFits(s, f, drop - first, to - first, buttons, x);
      ghost var was;
      changed, was := MoveToPos(drag, to);
      at := to - first;
      SamePosition(s, f, was - first);
      DropMoves(s, f, at, first, max);
      assert Order() == Moved(s, f, at);
      assert Without(Order(), at) == Without(s, f);
    }

    method ShiftLeft(from: nat, to: nat)
      requires Valid() && first <= from < to < max
      modifies order
      ensures forall k :: 0 <= k < order.Length ==> order[k] == old(order[if from <= k < to then k + 1 else k])
    {
      var i := from;
      while i < to
        invariant from <= i <= to
        invariant forall k :: 0 <= k < order.Length ==> order[k] == old(order[if from <= k < i then k + 1 else k])
      {
        order[i] := order[i + 1];
        i := i + 1;
      }
    }

    method ShiftRight(from: nat, to: nat)
      requires Valid() && first <= to < from < max
      modifies order
      ensures forall k :: 0 <= k < order.Length ==> order[k] == old(order[if to < k <= from then k - 1 else k])
    {
      var i := from;
      while i > to
        invariant to <= i <= from
        invariant forall k :: 0 <= k < order.Length ==> order[k] == old(order[if i < k <= from then k - 1 else k])
      {
        order[i] := order[i - 1];
        i := i - 1;
      }
    }

    method CopyBack(out: array<int>, ghost r: seq<int>)
      requires Valid() && out != order && out.Length == max && |r| == max - first && out[first..max] == r
      modifies order
      ensures Order() == r
      ensures order[..first] == old(order[..first]) && order[max..] == old(order[max..])
    {
      var i := first;
      while i < max
        invariant first <= i <= max && out[first..max] == r
        invariant order[first..i] == r[..i - first]
        invariant order[..first] == old(order[..first]) && order[max..] == old(order[max..])
      {
        assert out[i] == out[first..max][i - first];
        order[i] := out[i];
        i := i + 1;
      }
    }
  }

  // ----- How far a repair has come -----

  /** `out` holds the ids `k` from `first` on, and `seen` marks them. */
  ghost predicate Filled(out: seq<int>, seen: seq<bool>, first: nat, pos: nat, k: seq<int>)
  {
    && |out| == |seen| && first + |k| == pos <= |out| && out[first..pos] == k
    && NoRepeats(k) && Within(k, first, |out|)
    && forall id :: 0 <= id < |seen| ==> (seen[id] <==> id in k)
  }

  lemma FilledStart(out: seq<int>, seen: seq<bool>, first: nat, max: nat)
    requires first < max == |out| == |seen| && out[first] == first
    requires forall id :: 0 <= id < |seen| ==> (seen[id] <==> id == first)
    ensures Kept([], first, max) == [first] && Filled(out, seen, first, first + 1, [first])
  {
    assert out[first..first + 1] == [first];
  }

  lemma FilledSlice(out: seq<int>, seen: seq<bool>, first: nat, pos: nat, k: seq<int>)
    requires Filled(out, seen, first, pos, k)
    ensures first <= pos <= |out| && out[first..pos] == k == Completed(k, first, first)
  {
  }

  lemma KeptStep(s: seq<int>, n: nat, lo: int, hi: int)
    requires n < |s|
    ensures var k := Kept(s[..n], lo, hi);
            Kept(s[..n + 1], lo, hi) == if lo <= s[n] < hi && s[n] !in k then k + [s[n]] else k
  {
    assert s[..n + 1][..n] == s[..n];
  }

  lemma FilledStep(out: seq<int>, seen: seq<bool>, first: nat, pos: nat, k: seq<int>, id: nat)
    requires Filled(out, seen, first, pos, k) && first <= id < |seen|
    ensures seen[id] <==> id in k
    ensures !seen[id] ==> pos < |out| && Filled(out[pos := id], seen[id := true], first, pos + 1, k + [id])
  {
    if !seen[id] {
      NoRepeatsSnoc(k, id);
      Pigeonhole(k + [id], first, |out|);
      assert out[pos := id][first..pos + 1] == k + [id];
    }
  }

  lemma MissingStep(out: seq<int>, seen: seq<bool>, first: nat, pos: nat, k: seq<int>, id: nat)
    requires Filled(out, seen, first, pos, k) && first <= id < |seen|
    ensures var c := Completed(k, first, id);
            && Completed(k, first, id + 1) == (if seen[id] then c else c + [id])
            && (!seen[id] ==> first + |c| < |seen|)
  {
    CompletedFacts(k, first, id, |seen|);
    var c := Completed(k, first, id);
    if !seen[id] {
      NoRepeatsSnoc(c, id);
      Pigeonhole(c + [id], first, |seen|);
    }
  }

  lemma SanitizedIs(s: seq<int>, lo: int, hi: int)
    requires lo < hi
    ensures Completed(Kept(s, lo, hi), lo, hi) == Sanitized(s, lo, hi) && |Sanitized(s, lo, hi)| == hi - lo
  {
    SanitizedIsOrder(s, lo, hi);
  }
}
