/**
 Properties of the todo-list operations: what add, toggle and clear completed
 do to the ids, to the order of the records and to the "left to do" figure.
 */
module TodoProperties {
  import opened Todos

  /** 1 for an incomplete record, 0 for a complete one. */
  function Open(t: Todo): nat {
    if t.complete then 0 else 1
  }

  /** Every record of the list is still to do. */
  predicate AllOpen(s: seq<Todo>) {
    forall i :: 0 <= i < |s| ==> !s[i].complete
  }

  /** Filtering distributes over concatenation. */
  lemma {:induction false} ClearCompletedAppend(a: seq<Todo>, b: seq<Todo>)
    ensures ClearCompleted(a + b) == ClearCompleted(a) + ClearCompleted(b)
    decreases |a|
  {
    if |a| == 0 {
      assert a + b == b;
    } else {
      assert (a + b)[0] == a[0];
      assert (a + b)[1..] == a[1..] + b;
      ClearCompletedAppend(a[1..], b);
    }
  }

  /** Replacing one record moves the count by that record's contribution only. */
  lemma CountAfterUpdate(s: seq<Todo>, k: nat, t: Todo)
    requires k < |s|
    ensures IncompleteCount(s[k := t]) == IncompleteCount(s) - Open(s[k]) + Open(t)
  {
    assert s == s[..k] + [s[k]] + s[k + 1..];
    assert s[k := t] == s[..k] + [t] + s[k + 1..];
    ClearCompletedAppend(s[..k] + [s[k]], s[k + 1..]);
    ClearCompletedAppend(s[..k], [s[k]]);
    ClearCompletedAppend(s[..k] + [t], s[k + 1..]);
    ClearCompletedAppend(s[..k], [t]);
  }

  // ---------------------------------------------------------------- add

  /** Appending a record with a fresh id keeps the ids distinct. */
  lemma AddPreservesUniqueIds(todos: seq<Todo>, name: string, freshId: Id)
    requires UniqueIds(todos)
    requires !HasId(todos, freshId)
    ensures UniqueIds(Add(todos, name, freshId))
    ensures name != "" ==> HasId(Add(todos, name, freshId), freshId)
  {
    var r := Add(todos, name, freshId);
    if name != "" {
      assert r[|todos|].id == freshId;
      forall i, j | 0 <= i < j < |r| ensures r[i].id != r[j].id {
        assert r[i] == todos[i];
        if j < |todos| {
          assert r[j] == todos[j];
        }
      }
    }
  }

  /** A non-empty name adds one to the "left to do" figure; the empty name adds nothing. */
  lemma AddIncompleteCount(todos: seq<Todo>, name: string, freshId: Id)
    ensures name == "" ==> IncompleteCount(Add(todos, name, freshId)) == IncompleteCount(todos)
    ensures name != "" ==> IncompleteCount(Add(todos, name, freshId)) == IncompleteCount(todos) + 1
  {
    if name != "" {
      ClearCompletedAppend(todos, [Todo(freshId, name, false)]);
    }
  }

  // ------------------------------------------------------------- toggle

  /** Toggling the same present id twice gives back the original list. */
  lemma ToggleInvolution(todos: seq<Todo>, id: Id)
    requires HasId(todos, id)
    ensures HasId(Toggle(todos, id), id)
    ensures Toggle(Toggle(todos, id), id) == todos
  {
    var r := Toggle(todos, id);
    var k := Find(todos, id).value;
    assert Ids(r)[k] == Ids(todos)[k];
    assert r[k].id == id;
    forall j | 0 <= j < |todos|
      ensures IsFirstWithId(r, id, j) <==> IsFirstWithId(todos, id, j)
    {
      forall i | 0 <= i < |todos| ensures r[i].id == todos[i].id {
        assert Ids(r)[i] == Ids(todos)[i];
      }
    }
    var rr := Toggle(r, id);
    forall j | 0 <= j < |todos| ensures rr[j] == todos[j] {
      if IsFirstWithId(todos, id, j) {
        assert rr[j] == Flip(Flip(todos[j]));
      }
    }
  }

  /** Toggling never changes which ids the list holds, so distinct ids stay distinct. */
  lemma TogglePreservesUniqueIds(todos: seq<Todo>, id: Id)
    requires HasId(todos, id)
    requires UniqueIds(todos)
    ensures UniqueIds(Toggle(todos, id))
  {
    var r := Toggle(todos, id);
    forall i | 0 <= i < |todos| ensures r[i].id == todos[i].id {
      assert Ids(r)[i] == Ids(todos)[i];
    }
  }

  /** With distinct ids, the record toggled is the one record carrying the id. */
  lemma ToggleFlipsExactlyTheMatchingRecord(todos: seq<Todo>, id: Id)
    requires HasId(todos, id)
    requires UniqueIds(todos)
    ensures forall k :: 0 <= k < |todos| ==>
              Toggle(todos, id)[k] == if todos[k].id == id then Flip(todos[k]) else todos[k]
  {
    forall k | 0 <= k < |todos| && todos[k].id == id
      ensures IsFirstWithId(todos, id, k)
    {
    }
  }

  /** A toggle moves the "left to do" figure by exactly one, in the direction of the flip. */
  lemma ToggleIncompleteCount(todos: seq<Todo>, id: Id)
    requires HasId(todos, id)
    ensures todos[Find(todos, id).value].complete ==>
              IncompleteCount(Toggle(todos, id)) == IncompleteCount(todos) + 1
    ensures !todos[Find(todos, id).value].complete ==>
              IncompleteCount(Toggle(todos, id)) == IncompleteCount(todos) - 1
  {
    var k := Find(todos, id).value;
    CountAfterUpdate(todos, k, Flip(todos[k]));
  }

  // ----------------------------------------------------- clear completed

  /** Clearing twice is clearing once. */
  lemma ClearCompletedIdempotent(todos: seq<Todo>)
    ensures ClearCompleted(ClearCompleted(todos)) == ClearCompleted(todos)
  {
    var r := ClearCompleted(todos);
    assert forall i :: 0 <= i < |r| ==> r[i] in r;
  }

  /** After a clear, everything left is still to do. */
  lemma ClearCompletedLeavesOnlyOpen(todos: seq<Todo>)
    ensures IncompleteCount(ClearCompleted(todos)) == |ClearCompleted(todos)|
    ensures IncompleteCount(ClearCompleted(todos)) == IncompleteCount(todos)
  {
    ClearCompletedIdempotent(todos);
  }

  /** Records that survive a clear keep distinct ids. */
  lemma {:induction false} ClearCompletedPreservesUniqueIds(todos: seq<Todo>)
    requires UniqueIds(todos)
    ensures UniqueIds(ClearCompleted(todos))
    decreases |todos|
  {
    if |todos| > 0 {
      var rest := todos[1..];
      assert forall i :: 0 <= i < |rest| ==> rest[i] == todos[i + 1];
      ClearCompletedPreservesUniqueIds(rest);
      var r := ClearCompleted(todos);
      var cr := ClearCompleted(rest);
      if !todos[0].complete {
        assert r == [todos[0]] + cr;
        forall j | 0 < j < |r| ensures r[0].id != r[j].id {
          assert r[j] == cr[j - 1];
          assert cr[j - 1] in rest;
        }
      }
    }
  }

  /** Clearing keeps the surviving records in their original relative order. */
  lemma {:induction false} ClearCompletedKeepsOrder(todos: seq<Todo>)
    ensures IsSubsequence(ClearCompleted(todos), todos)
    decreases |todos|
  {
    if |todos| > 0 {
      ClearCompletedKeepsOrder(todos[1..]);
    }
  }

  /** A list of open records taken in order from `todos` is no longer than the count. */
  lemma {:induction false} OpenSubsequenceBound(s: seq<Todo>, todos: seq<Todo>)
    requires IsSubsequence(s, todos)
    requires AllOpen(s)
    ensures |s| <= IncompleteCount(todos)
    decreases |todos|
  {
    if |s| > 0 {
      assert IncompleteCount(todos) == Open(todos[0]) + IncompleteCount(todos[1..]);
      if s[0] == todos[0] && IsSubsequence(s[1..], todos[1..]) {
        OpenSubsequenceBound(s[1..], todos[1..]);
      } else {
        OpenSubsequenceBound(s, todos[1..]);
      }
    }
  }

  /** An order-preserving selection of open records that misses none of them is the clear's result. */
  lemma {:induction false} MaximalOpenSubsequenceIsClear(s: seq<Todo>, todos: seq<Todo>)
    requires IsSubsequence(s, todos)
    requires AllOpen(s)
    requires |s| == IncompleteCount(todos)
    ensures s == ClearCompleted(todos)
    decreases |todos|
  {
    if |s| > 0 {
      var rest := todos[1..];
      assert IncompleteCount(todos) == Open(todos[0]) + IncompleteCount(rest);
      if s[0] == todos[0] && IsSubsequence(s[1..], rest) {
        MaximalOpenSubsequenceIsClear(s[1..], rest);
        assert s == [s[0]] + s[1..];
      } else {
        OpenSubsequenceBound(s, rest);
        MaximalOpenSubsequenceIsClear(s, rest);
      }
    }
  }

  /**
   Clear completed is characterised by what its result is, not by how it is
   computed or counted: a list is the result exactly when it is an
   order-preserving selection of open records and no such selection is longer.
   */
  lemma ClearCompletedIsTheFilter(s: seq<Todo>, todos: seq<Todo>)
    ensures s == ClearCompleted(todos) <==>
              && IsSubsequence(s, todos)
              && AllOpen(s)
              && forall s' :: IsSubsequence(s', todos) && AllOpen(s') ==> |s'| <= |s|
  {
    var r := ClearCompleted(todos);
    ClearCompletedKeepsOrder(todos);
    assert AllOpen(r) by {
      assert forall i :: 0 <= i < |r| ==> r[i] in r;
    }
    forall s' | IsSubsequence(s', todos) && AllOpen(s') ensures |s'| <= |r| {
      OpenSubsequenceBound(s', todos);
    }
    if IsSubsequence(s, todos) && AllOpen(s)
       && forall s' :: IsSubsequence(s', todos) && AllOpen(s') ==> |s'| <= |s| {
      OpenSubsequenceBound(s, todos);
      MaximalOpenSubsequenceIsClear(s, todos);
    }
  }
}
