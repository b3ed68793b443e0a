/**
 * Pure derivations over the todo list: the visible list of the list view,
 * the active and completed parts the footer counts, and the new list each
 * handler of the application leaves behind.
 */
module TodoLists {
  import opened Todos
  import opened Filters
  import opened Sets

  /**
   * Whether the list view shows a todo under a filter: `All` shows every
   * todo, `Active` exactly the not-completed ones, `Completed` the rest.
   */
  predicate Shows(f: Filter, t: Todo)
    ensures Shows(f, t) <==> f == All || (f == Active) == !t.completed
  {
    match f
    case All => true
    case Active => !t.completed
    case Completed => t.completed
  }

  /** `a` is obtained from `b` by deleting elements, keeping the order of the rest. */
  ghost predicate IsSubsequence(a: TodoList, b: TodoList)
    decreases |b|
  {
    a == [] || (b != [] && ((a[0] == b[0] && IsSubsequence(a[1..], b[1..])) || IsSubsequence(a, b[1..])))
  }

  /**
   * The todos the list view shows: an order-preserving subsequence of the
   * list holding exactly the todos the filter lets through (how often each
   * occurs follows from ActiveCompletedPartition and VisibleIsWholeIff).
   */
  function Visible(ts: TodoList, f: Filter): (r: TodoList)
    ensures |r| <= |ts|
    ensures forall t :: t in r <==> t in ts && Shows(f, t)
    ensures IsSubsequence(r, ts)
  {
    if ts == [] then []
    else if Shows(f, ts[0]) then [ts[0]] + Visible(ts[1..], f)
    else Visible(ts[1..], f)
  }

  /** The footer's active todos: the not-completed todos, in list order. */
  function ActiveTodos(ts: TodoList): (r: TodoList)
    ensures forall t :: t in r <==> t in ts && !t.completed
    ensures IsSubsequence(r, ts)
  {
    Visible(ts, Active)
  }

  /** The footer's completed todos, in list order. */
  function CompletedTodos(ts: TodoList): (r: TodoList)
    ensures forall t :: t in r <==> t in ts && t.completed
    ensures IsSubsequence(r, ts)
  {
    Visible(ts, Completed)
  }

  /** The positions of the todos a filter lets through. */
  ghost function Positions(ts: TodoList, f: Filter): set<int> {
    set j | 0 <= j < |ts| && Shows(f, ts[j])
  }

  /** The visible list has one todo per position the filter lets through. */
  lemma {:induction false} VisibleLength(ts: TodoList, f: Filter)
    ensures |Visible(ts, f)| == |Positions(ts, f)|
  {
    if ts == [] {
      assert Positions(ts, f) == {};
    } else {
      var tail := Positions(ts[1..], f);
      VisibleLength(ts[1..], f);
      ShiftedSize(tail);
      var shifted := set j | j in tail :: j + 1;
      assert forall j :: 1 <= j < |ts| ==> ts[j] == ts[1..][j - 1];
      forall y ensures y in Positions(ts, f) <==> y in (if Shows(f, ts[0]) then {0} else {}) + shifted {
        if y in shifted {
          var j :| j in tail && y == j + 1;
        }
        if y in Positions(ts, f) && y != 0 {
          assert y - 1 in tail;
        }
      }
      assert Positions(ts, f) == (if Shows(f, ts[0]) then {0} else {}) + shifted;
    }
  }

  /** The number of items left: zero exactly when no todo is active. */
  function ActiveCount(ts: TodoList): (n: nat)
    ensures n <= |ts|
    ensures n == 0 <==> forall t :: t in ts ==> t.completed
  {
    var r := ActiveTodos(ts);
    assert r != [] ==> r[0] in r;
    |r|
  }

  /** The number of completed todos: zero exactly when every todo is active. */
  function CompletedCount(ts: TodoList): (n: nat)
    ensures n <= |ts|
    ensures n == 0 <==> forall t :: t in ts ==> !t.completed
  {
    var r := CompletedTodos(ts);
    assert r != [] ==> r[0] in r;
    |r|
  }

  /**
   * The footer's counts are the number of positions holding a todo that is
   * not completed, and the number holding a completed one.
   */
  lemma CountsArePositions(ts: TodoList)
    ensures ActiveCount(ts) == |set j | 0 <= j < |ts| && !ts[j].completed|
    ensures CompletedCount(ts) == |set j | 0 <= j < |ts| && ts[j].completed|
  {
    VisibleLength(ts, Active);
    VisibleLength(ts, Completed);
    assert Positions(ts, Active) == set j | 0 <= j < |ts| && !ts[j].completed;
    assert Positions(ts, Completed) == set j | 0 <= j < |ts| && ts[j].completed;
  }

  /**
   * The toggler's "every todo is completed": true of the empty list, and
   * otherwise true exactly when no item is left.
   */
  predicate AllCompleted(ts: TodoList)
    ensures ts == [] ==> AllCompleted(ts)
    ensures AllCompleted(ts) <==> ActiveCount(ts) == 0
  {
    forall t :: t in ts ==> t.completed
  }

  /** A filter leaves the list as it is exactly when it lets every todo through. */
  lemma {:induction false} VisibleIsWholeIff(ts: TodoList, f: Filter)
    ensures Visible(ts, f) == ts <==> forall t :: t in ts ==> Shows(f, t)
  {
    if ts != [] {
      VisibleIsWholeIff(ts[1..], f);
      if forall t :: t in ts ==> Shows(f, t) {
        assert forall t :: t in ts[1..] ==> t in ts;
      }
    }
  }

  /** The initial filter, `All`, shows the whole list. */
  lemma VisibleAllIsWhole(ts: TodoList)
    ensures Visible(ts, All) == ts
  {
    VisibleIsWholeIff(ts, All);
  }

  /** Deriving the visible list from a visible list changes nothing. */
  lemma VisibleIdempotent(ts: TodoList, f: Filter)
    ensures Visible(Visible(ts, f), f) == Visible(ts, f)
  {
    VisibleIsWholeIff(Visible(ts, f), f);
  }

  /**
   * The active and the completed todos split the list: together they hold
   * every todo exactly as often as the list does, so the two counts add up
   * to its length.
   */
  lemma {:induction false} ActiveCompletedPartition(ts: TodoList)
    ensures multiset(ActiveTodos(ts)) + multiset(CompletedTodos(ts)) == multiset(ts)
    ensures ActiveCount(ts) + CompletedCount(ts) == |ts|
  {
    if ts != [] {
      var rest := ts[1..];
      ActiveCompletedPartition(rest);
      assert ts == [ts[0]] + rest;
      if ts[0].completed {
        assert ActiveTodos(ts) == ActiveTodos(rest);
        assert CompletedTodos(ts) == [ts[0]] + CompletedTodos(rest);
      } else {
        assert ActiveTodos(ts) == [ts[0]] + ActiveTodos(rest);
        assert CompletedTodos(ts) == CompletedTodos(rest);
      }
      assert multiset(ts) == multiset{ts[0]} + multiset(rest);
    }
    assert |multiset(ActiveTodos(ts))| == ActiveCount(ts);
    assert |multiset(CompletedTodos(ts))| == CompletedCount(ts);
  }

  /** "Every todo is completed" holds exactly when every todo is counted as completed. */
  lemma AllCompletedIff(ts: TodoList)
    ensures AllCompleted(ts) <==> CompletedCount(ts) == |ts|
  {
    ActiveCompletedPartition(ts);
    if ActiveCount(ts) != 0 {
      assert ActiveTodos(ts)[0] in ActiveTodos(ts);
    }
  }

  /**
   * Position of the first todo carrying `id`, or -1 when none does: the todo
   * an item's handlers act on.
   */
  function IndexOf(ts: TodoList, id: TodoId): (i: int)
    ensures -1 <= i < |ts|
    ensures i == -1 <==> !HasId(ts, id)
    ensures 0 <= i ==> ts[i].id == id && forall j :: 0 <= j < i ==> ts[j].id != id
  {
    if ts == [] then -1
    else if ts[0].id == id then 0
    else
      var k := IndexOf(ts[1..], id);
      assert forall j :: 1 <= j < |ts| ==> ts[j] == ts[1..][j - 1];
      if k == -1 then -1 else k + 1
  }

  /** In a list of distinct ids, the todo carrying `id` is the one at IndexOf. */
  lemma IndexOfUnique(ts: TodoList, id: TodoId)
    requires UniqueIds(ts)
    ensures forall j :: 0 <= j < |ts| ==> (ts[j].id == id <==> j == IndexOf(ts, id))
  {
  }

  /** IndexOf looks at ids only. */
  lemma {:induction false} IndexOfSameIds(a: TodoList, b: TodoList, id: TodoId)
    requires |a| == |b|
    requires forall j :: 0 <= j < |a| ==> a[j].id == b[j].id
    ensures IndexOf(a, id) == IndexOf(b, id)
  {
    if a != [] {
      IndexOfSameIds(a[1..], b[1..], id);
    }
  }

  /** The list after an item's completion checkbox is clicked. */
  function Toggled(ts: TodoList, id: TodoId): (r: TodoList)
    ensures |r| == |ts|
    ensures forall j :: 0 <= j < |ts| ==> r[j].id == ts[j].id && r[j].content == ts[j].content
    ensures forall j :: 0 <= j < |ts| ==> (r[j].completed != ts[j].completed <==> j == IndexOf(ts, id))
  {
    var i := IndexOf(ts, id);
    if i < 0 then ts else ts[i := ts[i].(completed := !ts[i].completed)]
  }

  /**
   * With distinct ids, toggling flips the completion flag of exactly the todo
   * with that id and keeps the ids distinct.
   */
  lemma ToggleFlipsOnlyTarget(ts: TodoList, id: TodoId)
    requires UniqueIds(ts)
    ensures UniqueIds(Toggled(ts, id))
    ensures forall j :: 0 <= j < |ts| ==>
      (Toggled(ts, id)[j].completed != ts[j].completed <==> ts[j].id == id)
  {
    IndexOfUnique(ts, id);
  }

  /** Toggling the same todo twice restores the list. */
  lemma ToggleTwice(ts: TodoList, id: TodoId)
    ensures Toggled(Toggled(ts, id), id) == ts
  {
    var r := Toggled(ts, id);
    IndexOfSameIds(r, ts, id);
    var r2 := Toggled(r, id);
    assert forall j :: 0 <= j < |ts| ==> r2[j] == ts[j];
  }

  /** The list after the library's `remove` takes the todo with this id out. */
  function Removed(ts: TodoList, id: TodoId): (r: TodoList)
    ensures |r| == if HasId(ts, id) then |ts| - 1 else |ts|
    ensures !HasId(ts, id) ==> r == ts
    ensures multiset(r) <= multiset(ts)
    ensures forall t :: t in ts && t.id != id ==> t in r
  {
    var i := IndexOf(ts, id);
    if i < 0 then ts
    else
      assert ts == ts[..i] + [ts[i]] + ts[i + 1..];
      assert forall t :: t in ts && t.id != id ==> t in ts[..i] || t in ts[i + 1..];
      ts[..i] + ts[i + 1..]
  }

  lemma {:induction false} SubsequenceReflexive(ts: TodoList)
    ensures IsSubsequence(ts, ts)
  {
    if ts != [] {
      SubsequenceReflexive(ts[1..]);
    }
  }

  /** Dropping one element leaves a subsequence. */
  lemma {:induction false} DropIsSubsequence(ts: TodoList, i: nat)
    requires i < |ts|
    ensures IsSubsequence(ts[..i] + ts[i + 1..], ts)
  {
    if i == 0 {
      assert ts[..0] + ts[1..] == ts[1..];
      SubsequenceReflexive(ts[1..]);
    } else {
      DropIsSubsequence(ts[1..], i - 1);
      var r := ts[..i] + ts[i + 1..];
      assert r[0] == ts[0];
      assert r[1..] == ts[1..][..i - 1] + ts[1..][i..];
    }
  }

  /**
   * With distinct ids, removing takes out exactly the todo with that id and
   * keeps every other todo, in order, with the ids still distinct.
   */
  lemma RemoveExactlyTarget(ts: TodoList, id: TodoId)
    requires UniqueIds(ts)
    ensures IsSubsequence(Removed(ts, id), ts)
    ensures UniqueIds(Removed(ts, id))
    ensures !HasId(Removed(ts, id), id)
    ensures forall t :: t in Removed(ts, id) <==> t in ts && t.id != id
  {
    var i := IndexOf(ts, id);
    if i < 0 {
      SubsequenceReflexive(ts);
    } else {
      DropIsSubsequence(ts, i);
      DropAtIndexOf(ts, id);
    }
  }

  /** Dropping the todo with a unique id leaves the other todos and no todo with that id. */
  lemma DropAtIndexOf(ts: TodoList, id: TodoId)
    requires UniqueIds(ts)
    requires HasId(ts, id)
    ensures var i := IndexOf(ts, id);
      var r := ts[..i] + ts[i + 1..];
      UniqueIds(r) && !HasId(r, id) && forall t :: t in r <==> t in ts && t.id != id
  {
    var i := IndexOf(ts, id);
    var r := ts[..i] + ts[i + 1..];
    assert forall j :: 0 <= j < |r| ==> r[j] == ts[if j < i then j else j + 1];
    assert UniqueIds(r) by {
      forall j, k | 0 <= j < k < |r| ensures r[j].id != r[k].id {
        var j', k' := if j < i then j else j + 1, if k < i then k else k + 1;
        assert r[j] == ts[j'] && r[k] == ts[k'];
      }
    }
    IndexOfUnique(ts, id);
    assert !HasId(r, id);
    forall t ensures t in r <==> t in ts && t.id != id {
      if t in r {
        var j :| 0 <= j < |r| && r[j] == t;
        assert r[j] == ts[if j < i then j else j + 1];
      }
    }
  }

  /** The list after an item's edit is submitted with non-empty content. */
  function Edited(ts: TodoList, id: TodoId, content: string): (r: TodoList)
    ensures |r| == |ts|
    ensures forall j :: 0 <= j < |ts| ==> r[j].id == ts[j].id && r[j].completed == ts[j].completed
    ensures forall j :: 0 <= j < |ts| ==>
      r[j].content == if j == IndexOf(ts, id) then content else ts[j].content
  {
    var i := IndexOf(ts, id);
    if i < 0 then ts else ts[i := ts[i].(content := content)]
  }

  /** With distinct ids, editing changes the content of exactly the todo with that id. */
  lemma EditChangesOnlyTarget(ts: TodoList, id: TodoId, content: string)
    requires UniqueIds(ts)
    ensures UniqueIds(Edited(ts, id, content))
    ensures forall j :: 0 <= j < |ts| ==>
      Edited(ts, id, content)[j] == if ts[j].id == id then ts[j].(content := content) else ts[j]
  {
    IndexOfUnique(ts, id);
  }

  /** Every todo with its completion flag set to `v`. */
  function WithAllCompleted(ts: TodoList, v: bool): (r: TodoList)
    ensures |r| == |ts|
    ensures forall j :: 0 <= j < |ts| ==> r[j] == ts[j].(completed := v)
  {
    if ts == [] then [] else [ts[0].(completed := v)] + WithAllCompleted(ts[1..], v)
  }

  /**
   * The list after the "mark all as complete" toggle: every flag set to the
   * negation of "all completed" of the list before it, that is, every todo
   * ends completed exactly when some todo was active.
   */
  function ToggledAll(ts: TodoList): (r: TodoList)
    ensures |r| == |ts|
    ensures forall j :: 0 <= j < |ts| ==>
      r[j].id == ts[j].id && r[j].content == ts[j].content && (r[j].completed <==> ActiveCount(ts) > 0)
  {
    WithAllCompleted(ts, !AllCompleted(ts))
  }

  /**
   * Toggle-all completes every todo unless all were completed, in which case
   * every todo becomes active; on the empty list it changes nothing. Ids,
   * contents, order and length stay as they were.
   */
  lemma ToggleAllOutcome(ts: TodoList)
    ensures ts == [] ==> ToggledAll(ts) == []
    ensures !AllCompleted(ts) ==> AllCompleted(ToggledAll(ts))
    ensures AllCompleted(ts) ==> ActiveCount(ToggledAll(ts)) == |ts|
    ensures forall j :: 0 <= j < |ts| ==>
      ToggledAll(ts)[j].id == ts[j].id && ToggledAll(ts)[j].content == ts[j].content
  {
    var r := ToggledAll(ts);
    AllCompletedIff(r);
    if AllCompleted(ts) {
      VisibleIsWholeIff(r, Active);
    }
  }

  /**
   * Toggling all twice leaves every flag equal to "all were completed"; so
   * a fully completed list comes back unchanged.
   */
  lemma ToggleAllTwice(ts: TodoList)
    ensures ToggledAll(ToggledAll(ts)) == WithAllCompleted(ts, AllCompleted(ts))
    ensures AllCompleted(ts) ==> ToggledAll(ToggledAll(ts)) == ts
  {
    var r := ToggledAll(ts);
    var r2 := ToggledAll(r);
    if ts != [] {
      assert r[0] in r;
      assert AllCompleted(r) == !AllCompleted(ts);
    }
    assert forall j :: 0 <= j < |ts| ==> r2[j] == WithAllCompleted(ts, AllCompleted(ts))[j];
    if AllCompleted(ts) {
      assert forall j :: 0 <= j < |ts| ==> ts[j] in ts;
    }
  }

  /**
   * Clear-completed keeps exactly the active todos in order: none of them is
   * completed, doing it again changes nothing, and it leaves a list with no
   * completed todo as it is.
   */
  lemma ClearCompletedProperties(ts: TodoList)
    ensures IsSubsequence(ActiveTodos(ts), ts)
    ensures CompletedCount(ActiveTodos(ts)) == 0
    ensures ActiveTodos(ActiveTodos(ts)) == ActiveTodos(ts)
    ensures ActiveTodos(ts) == ts <==> CompletedCount(ts) == 0
  {
    VisibleIdempotent(ts, Active);
    VisibleIsWholeIff(ts, Active);
    AllCompletedIff(ActiveTodos(ts));
    ActiveCompletedPartition(ActiveTodos(ts));
    if CompletedCount(ts) != 0 {
      assert CompletedTodos(ts)[0] in CompletedTodos(ts);
    }
  }

  /** Filtering keeps ids distinct. */
  lemma {:induction false} VisibleKeepsUniqueIds(ts: TodoList, f: Filter)
    requires UniqueIds(ts)
    ensures UniqueIds(Visible(ts, f))
  {
    if ts != [] {
      var rest := ts[1..];
      assert UniqueIds(rest);
      VisibleKeepsUniqueIds(rest, f);
      var r := Visible(rest, f);
      forall t | t in r
        ensures t.id != ts[0].id
      {
        var k :| 0 <= k < |rest| && rest[k] == t;
        assert ts[k + 1] == t;
      }
    }
  }
}
