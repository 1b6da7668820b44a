/** reorderTodos: move a task to another task's place in the visible list, then give
    every visible task the order of its new position. */
module Reordering {
  import opened Builtins
  import opened TodoModel
  import opened View

  /** `visible.splice(sourceIndex, 1); visible.splice(targetIndex, 0, source)`: the list
      with the source taken out and put back at the target's original index. */
  function Moved(v: seq<Todo>, si: nat, ti: nat): (r: seq<Todo>)
    requires si < |v| && ti < |v|
    ensures |r| == |v|
    ensures multiset(r) == multiset(v)
    ensures r[ti] == v[si]
    ensures r[..ti] + r[ti + 1..] == v[..si] + v[si + 1..]
  {
    var rest := v[..si] + v[si + 1..];
    assert v == v[..si] + [v[si]] + v[si + 1..];
    assert multiset(v) == multiset(rest) + multiset{v[si]};
    var r := rest[..ti] + [v[si]] + rest[ti..];
    assert rest == rest[..ti] + rest[ti..];
    assert multiset(r) == multiset(rest[..ti]) + multiset{v[si]} + multiset(rest[ti..]);
    assert r[..ti] == rest[..ti] && r[ti + 1..] == rest[ti..];
    r
  }

  /** Where an element of the moved list, other than the one at the target index, was
      in the original list. */
  function Origin(si: nat, ti: nat, k: nat): int {
    if si <= ti then (if k < si || k > ti then k else k + 1)
    else (if k < ti || k > si then k else k - 1)
  }

  lemma MovedAt(v: seq<Todo>, si: nat, ti: nat, k: nat)
    requires si < |v| && ti < |v| && k < |v| && k != ti
    ensures 0 <= Origin(si, ti, k) < |v| && Moved(v, si, ti)[k] == v[Origin(si, ti, k)]
    ensures k < ti ==> Origin(si, ti, k) <= ti
    ensures k > ti ==> Origin(si, ti, k) >= ti
  {
  }

  lemma OriginIncreasing(si: nat, ti: nat, i: nat, j: nat)
    requires i < j && i != ti && j != ti
    ensures Origin(si, ti, i) < Origin(si, ti, j)
  {
  }

  /** Moving a task onto a task with the same completion state keeps every incomplete
      task ahead of every completed one: this is what the guard in reorderTodos is for. */
  lemma MoveWithinGroupKeepsIncompleteFirst(v: seq<Todo>, si: nat, ti: nat)
    requires si < |v| && ti < |v|
    requires IncompleteFirst(v)
    requires v[si].completed == v[ti].completed
    ensures IncompleteFirst(Moved(v, si, ti))
  {
    var r := Moved(v, si, ti);
    forall i, j | 0 <= i < j < |r| && r[i].completed
      ensures r[j].completed
    {
      if i == ti {
        MovedAt(v, si, ti, j);
        assert v[ti].completed;
      } else if j == ti {
        MovedAt(v, si, ti, i);
        assert v[ti].completed;
      } else {
        MovedAt(v, si, ti, i);
        MovedAt(v, si, ti, j);
        OriginIncreasing(si, ti, i, j);
      }
    }
  }

  // ---------------------------------------------------------------------------
  // Renumbering

  /** The first `n` rounds of the `forEach` in reorderTodos: for the task at index `p` of
      the moved list, the first task of the store with its id gets order `p + 1`. */
  function Renumber(todos: seq<Todo>, moved: seq<Todo>, n: nat): (r: seq<Todo>)
    requires n <= |moved|
    ensures |r| == |todos|
    ensures forall k :: 0 <= k < |todos| ==> r[k] == todos[k].(order := r[k].order)
  {
    if n == 0 then todos
    else
      var t := Renumber(todos, moved, n - 1);
      var i := IndexOfId(t, moved[n - 1].id);
      if i < 0 then t else t[i := t[i].(order := n)]
  }

  /** One more round of the renumbering. */
  lemma RenumberNext(todos: seq<Todo>, moved: seq<Todo>, n: nat)
    requires n < |moved|
    ensures var t := Renumber(todos, moved, n);
            var i := IndexOfId(t, moved[n].id);
            Renumber(todos, moved, n + 1) == if i < 0 then t else t[i := t[i].(order := n + 1)]
  {
  }

  /** Two lists with the same ids at the same places find an id at the same index. */
  lemma SameIdsSameIndex(a: seq<Todo>, b: seq<Todo>, id: int)
    requires |a| == |b| && forall k :: 0 <= k < |a| ==> a[k].id == b[k].id
    ensures IndexOfId(a, id) == IndexOfId(b, id)
  {
  }

  lemma IndexOfIdAppend(s: seq<Todo>, x: Todo, id: int)
    ensures IndexOfId(s + [x], id) ==
              if IndexOfId(s, id) >= 0 then IndexOfId(s, id)
              else if x.id == id then |s| else -1
  {
    var r := IndexOfId(s + [x], id);
    assert forall k :: 0 <= k < |s| ==> (s + [x])[k] == s[k];
    assert (s + [x])[|s|] == x;
  }

  /** The order the renumbering gives `t` once `prefix` has been walked: its position in
      `prefix` plus one when its id is there, its own order otherwise. */
  function PositionOrder(prefix: seq<Todo>, t: Todo): int {
    var p := IndexOfId(prefix, t.id);
    if p >= 0 then p + 1 else t.order
  }

  /** With unique ids, the id at position `n` of a list is not found before it. */
  lemma UniqueIdNotEarlier(moved: seq<Todo>, n: nat)
    requires UniqueIds(moved) && n < |moved|
    ensures IndexOfId(moved[..n], moved[n].id) < 0
  {
  }

  /** One renumbering update on a list `t` with the ids of `todos`: giving order `n` to
      the first task with `x`'s id moves task `k` from the order `pre` gives it to the
      order `pre + [x]` gives it, when `k`'s id occurs once and `x`'s id is not in `pre`. */
  lemma UpdateAt(t: seq<Todo>, todos: seq<Todo>, pre: seq<Todo>, x: Todo, k: nat)
    requires |t| == |todos| && k < |todos|
    requires forall j :: 0 <= j < |t| ==> t[j].id == todos[j].id
    requires forall j :: 0 <= j < |todos| && todos[j].id == todos[k].id ==> j == k
    requires IndexOfId(pre, x.id) < 0
    requires t[k].order == PositionOrder(pre, todos[k])
    ensures var i := IndexOfId(t, x.id);
            var u := if i < 0 then t else t[i := t[i].(order := |pre| + 1)];
            u[k].order == PositionOrder(pre + [x], todos[k])
  {
    IndexOfIdAppend(pre, x, todos[k].id);
    var i := IndexOfId(t, x.id);
    if todos[k].id == x.id {
      assert t[k].id == x.id;
      assert i == k;
    } else {
      assert t[k].id != x.id;
    }
  }

  /** One round of the renumbering keeps every task at the order `PositionOrder` gives it. */
  lemma RenumberStep(todos: seq<Todo>, moved: seq<Todo>, n: nat, k: nat)
    requires 0 < n <= |moved| && k < |todos|
    requires UniqueIds(todos) && UniqueIds(moved)
    requires Renumber(todos, moved, n - 1)[k].order == PositionOrder(moved[..n - 1], todos[k])
    ensures Renumber(todos, moved, n)[k].order == PositionOrder(moved[..n], todos[k])
  {
    var t := Renumber(todos, moved, n - 1);
    RenumberNext(todos, moved, n - 1);
    assert moved[..n] == moved[..n - 1] + [moved[n - 1]];
    UniqueIdNotEarlier(moved, n - 1);
    UpdateAt(t, todos, moved[..n - 1], moved[n - 1], k);
  }

  /** With unique ids, after `n` rounds each task whose id is among the first `n` moved
      tasks has the order of that position plus one; every other task keeps its order. */
  lemma {:induction false} RenumberGivesPositions(todos: seq<Todo>, moved: seq<Todo>, n: nat)
    requires n <= |moved|
    requires UniqueIds(todos) && UniqueIds(moved)
    ensures forall k :: 0 <= k < |todos| ==>
              Renumber(todos, moved, n)[k].order == PositionOrder(moved[..n], todos[k])
  {
    if n > 0 {
      RenumberGivesPositions(todos, moved, n - 1);
      forall k | 0 <= k < |todos|
        ensures Renumber(todos, moved, n)[k].order == PositionOrder(moved[..n], todos[k])
      {
        RenumberStep(todos, moved, n, k);
      }
    }
  }

  // ---------------------------------------------------------------------------
  // Unique ids carry over to the visible list

  lemma {:induction false} UniqueIdsCountOne(s: seq<Todo>, t: Todo)
    requires UniqueIds(s)
    ensures multiset(s)[t] <= 1
  {
    if s != [] {
      assert UniqueIds(s[1..]) by {
        forall i, j | 0 <= i < j < |s[1..]| ensures s[1..][i].id != s[1..][j].id {
          assert s[1..][i] == s[i + 1] && s[1..][j] == s[j + 1];
        }
      }
      UniqueIdsCountOne(s[1..], t);
      assert s == [s[0]] + s[1..];
      if t == s[0] {
        assert t !in s[1..];
      }
    }
  }

  /** Two equal elements at different indices occur at least twice. */
  lemma TwoOccurrences(a: seq<Todo>, i: nat, j: nat)
    requires i < j < |a|
    ensures a[i] == a[j] ==> multiset(a)[a[i]] >= 2
  {
    if a[i] == a[j] {
      assert a == a[..j] + [a[j]] + a[j + 1..];
      assert a[i] in a[..j];
    }
  }

  /** A list holding no task more often than a list with unique ids has unique ids. */
  lemma UniqueIdsSubMultiset(a: seq<Todo>, b: seq<Todo>)
    requires multiset(a) <= multiset(b)
    requires UniqueIds(b)
    ensures UniqueIds(a)
  {
    forall i, j | 0 <= i < j < |a|
      ensures a[i].id != a[j].id
    {
      assert a[i] in multiset(a) && a[j] in multiset(a);
      var p :| 0 <= p < |b| && b[p] == a[i];
      var q :| 0 <= q < |b| && b[q] == a[j];
      assert a[i].id == a[j].id ==> p == q;
      TwoOccurrences(a, i, j);
      UniqueIdsCountOne(b, a[i]);
    }
  }

  // ---------------------------------------------------------------------------
  // The whole operation

  /** What reorderTodos leaves in `todos`, given the visible list `v`: unchanged when the
      source or the target is not in `v` or their completion states differ; otherwise the
      tasks renumbered along `v` with the source moved to the target's place. */
  function ReorderWithin(todos: seq<Todo>, v: seq<Todo>, sourceId: int, targetId: int): (r: seq<Todo>)
    ensures |r| == |todos|
    ensures forall k :: 0 <= k < |todos| ==> r[k] == todos[k].(order := r[k].order)
  {
    var si := IndexOfId(v, sourceId);
    var ti := IndexOfId(v, targetId);
    if si < 0 || ti < 0 || v[si].completed != v[ti].completed then todos
    else Renumber(todos, Moved(v, si, ti), |v|)
  }

  /** reorderTodos on the list getVisibleTodos derives. */
  function Reordered(todos: seq<Todo>, sourceId: int, targetId: int,
                     search: string, filter: string, today: string): seq<Todo> {
    ReorderWithin(todos, Visible(todos, search, filter, today), sourceId, targetId)
  }

  /** A source or a target that is not in the visible list changes nothing. */
  lemma ReorderNeedsBothVisible(todos: seq<Todo>, v: seq<Todo>, sourceId: int, targetId: int)
    requires (forall t :: t in v ==> t.id != sourceId) || (forall t :: t in v ==> t.id != targetId)
    ensures ReorderWithin(todos, v, sourceId, targetId) == todos
  {
  }

  /** With unique ids in the visible list, moving a completed task onto an incomplete one,
      or the other way round, changes nothing. */
  lemma ReorderKeepsCompletionGroupsApart(todos: seq<Todo>, v: seq<Todo>, s: Todo, t: Todo)
    requires UniqueIds(v) && s in v && t in v
    requires s.completed != t.completed
    ensures ReorderWithin(todos, v, s.id, t.id) == todos
  {
    var p :| 0 <= p < |v| && v[p] == s;
    var q :| 0 <= q < |v| && v[q] == t;
    IndexOfUniqueId(v, p);
    IndexOfUniqueId(v, q);
  }

  /** Moving within a list `v` drawn from unique-id tasks, then renumbering along the
      result: each task of the moved list gets its new index plus one, every other task is
      left as it was. */
  lemma RenumberAlongMove(todos: seq<Todo>, v: seq<Todo>, si: nat, ti: nat)
    requires UniqueIds(todos) && multiset(v) <= multiset(todos)
    requires si < |v| && ti < |v|
    ensures var moved := Moved(v, si, ti);
            var r := Renumber(todos, moved, |v|);
            forall k :: 0 <= k < |todos| ==>
              && (IndexOfId(moved, todos[k].id) >= 0 ==> r[k].order == IndexOfId(moved, todos[k].id) + 1)
              && (IndexOfId(moved, todos[k].id) < 0 ==> r[k] == todos[k])
  {
    var moved := Moved(v, si, ti);
    UniqueIdsSubMultiset(moved, todos);
    RenumberGivesPositions(todos, moved, |moved|);
    assert moved[..|moved|] == moved;
  }

  /** With unique ids, a permitted move gives each visible task its new index plus one as
      `order`, leaves every task outside the visible list as it was, and changes no field
      but `order`. The moved list keeps incomplete tasks ahead of completed ones. */
  lemma ReorderRenumbersVisible(todos: seq<Todo>, sourceId: int, targetId: int,
                                search: string, filter: string, today: string)
    requires UniqueIds(todos)
    requires var v := Visible(todos, search, filter, today);
             var si := IndexOfId(v, sourceId);
             var ti := IndexOfId(v, targetId);
             si >= 0 && ti >= 0 && v[si].completed == v[ti].completed
    ensures var v := Visible(todos, search, filter, today);
            var moved := Moved(v, IndexOfId(v, sourceId), IndexOfId(v, targetId));
            var r := Reordered(todos, sourceId, targetId, search, filter, today);
            && IncompleteFirst(moved)
            && moved[IndexOfId(v, targetId)] == v[IndexOfId(v, sourceId)]
            && forall k :: 0 <= k < |todos| ==>
                 && (IndexOfId(moved, todos[k].id) >= 0 ==> r[k].order == IndexOfId(moved, todos[k].id) + 1)
                 && (IndexOfId(moved, todos[k].id) < 0 ==> r[k] == todos[k])
  {
    var v := Visible(todos, search, filter, today);
    var si, ti := IndexOfId(v, sourceId), IndexOfId(v, targetId);
    VisibleIsSortedSelection(todos, search, filter, today);
    assert multiset(v) <= multiset(todos);
    RenumberAlongMove(todos, v, si, ti);
    MoveWithinGroupKeepsIncompleteFirst(v, si, ti);
  }
}
