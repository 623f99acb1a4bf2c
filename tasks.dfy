/**
  The task collection of `ProductivityManager` as a value: the task record,
  the `Array.prototype.filter` and `Array.prototype.find` the manager uses,
  and what each of the three mutators does to the ordered sequence of tasks.
  The class in module Manager applies these to its `tasks` field.
 */
module Tasks {
  import opened Text

  /** Ids are compared only with `===`; the floating-point value that
      `Date.now() + Math.random()` produces is taken as an input. */
  type TaskId = int

  /** One entry of `this.tasks`; `createdAt` is the ISO-8601 text of the
      creation time, supplied by the caller. */
  datatype Task = Task(id: TaskId, text: string, completed: bool, createdAt: string)

  // ---------------------------------------------------------------------------
  // Array.prototype.filter and order-preserving subsequences

  /** The three callbacks the manager passes to `filter`: `t => t.completed`
      and `t => !t.completed` in `render` and `updateStats`, and
      `t => t.id !== id` in `deleteTask`. */
  datatype Keep = IsCompleted | IsPending | OtherId(id: TaskId) {
    predicate Admits(t: Task) {
      match this
      case IsCompleted => t.completed
      case IsPending => !t.completed
      case OtherId(id) => t.id != id
    }
  }

  /** `s.filter(keep)`: the elements of `s` that satisfy `keep`, in their order. */
  function Filter(s: seq<Task>, keep: Keep): (r: seq<Task>)
    ensures |r| <= |s|
    ensures forall k :: 0 <= k < |r| ==> keep.Admits(r[k])
    decreases |s|
  {
    if s == [] then [] else (if keep.Admits(s[0]) then [s[0]] else []) + Filter(s[1..], keep)
  }

  /** An element is in the filtered sequence exactly when it is in the
      original and passes the filter. */
  lemma {:induction false} FilterMembers(s: seq<Task>, keep: Keep)
    ensures forall x :: x in Filter(s, keep) <==> x in s && keep.Admits(x)
    decreases |s|
  {
    if s != [] {
      FilterMembers(s[1..], keep);
      assert s == [s[0]] + s[1..];
    }
  }

  /** `a` is obtained from `b` by dropping elements, without reordering. */
  ghost predicate IsSubsequence(a: seq<Task>, b: seq<Task>)
    decreases |b|
  {
    a == [] || (b != [] && ((a[0] == b[0] && IsSubsequence(a[1..], b[1..])) || IsSubsequence(a, b[1..])))
  }

  lemma {:induction false} FilterIsSubsequence(s: seq<Task>, keep: Keep)
    ensures IsSubsequence(Filter(s, keep), s)
    decreases |s|
  {
    if s != [] {
      FilterIsSubsequence(s[1..], keep);
      if keep.Admits(s[0]) {
        assert Filter(s, keep) == [s[0]] + Filter(s[1..], keep);
        assert Filter(s, keep)[1..] == Filter(s[1..], keep);
      } else {
        assert Filter(s, keep) == Filter(s[1..], keep);
      }
    }
  }

  /** Filtering distributes over concatenation, so it keeps relative order. */
  lemma {:induction false} FilterAppend(a: seq<Task>, b: seq<Task>, keep: Keep)
    ensures Filter(a + b, keep) == Filter(a, keep) + Filter(b, keep)
    decreases |a|
  {
    if a == [] {
      assert a + b == b;
    } else {
      assert (a + b)[1..] == a[1..] + b;
      FilterAppend(a[1..], b, keep);
    }
  }

  /** A filter that every element passes returns the sequence itself. */
  lemma {:induction false} FilterKeepsAll(s: seq<Task>, keep: Keep)
    requires forall k :: 0 <= k < |s| ==> keep.Admits(s[k])
    ensures Filter(s, keep) == s
    decreases |s|
  {
    if s != [] {
      FilterKeepsAll(s[1..], keep);
    }
  }

  /** A filter returns nothing exactly when no element passes it. */
  lemma {:induction false} FilterEmpty(s: seq<Task>, keep: Keep)
    ensures Filter(s, keep) == [] <==> forall k :: 0 <= k < |s| ==> !keep.Admits(s[k])
    decreases |s|
  {
    if s != [] {
      FilterEmpty(s[1..], keep);
      assert forall k :: 1 <= k < |s| ==> s[k] == s[1..][k - 1];
    }
  }

  /** How many elements of `s` pass the filter, counted around position `i`. */
  lemma FilterCountAt(s: seq<Task>, i: nat, keep: Keep)
    requires i < |s|
    ensures |Filter(s, keep)| == |Filter(s[..i], keep)| + (if keep.Admits(s[i]) then 1 else 0) + |Filter(s[i + 1..], keep)|
  {
    assert s == s[..i] + ([s[i]] + s[i + 1..]);
    FilterAppend(s[..i], [s[i]] + s[i + 1..], keep);
    FilterAppend([s[i]], s[i + 1..], keep);
  }

  /** The completed and the pending filter split `s` with no loss and no
      overlap: together they hold each task of `s` exactly as often as `s`
      does. */
  lemma {:induction false} FilterPartition(s: seq<Task>)
    ensures multiset(Filter(s, IsCompleted)) + multiset(Filter(s, IsPending)) == multiset(s)
    decreases |s|
  {
    if s != [] {
      var t := s[1..];
      FilterPartition(t);
      var c, p := Filter(t, IsCompleted), Filter(t, IsPending);
      assert multiset(s) == multiset{s[0]} + multiset(t) by {
        assert s == [s[0]] + t;
      }
      if s[0].completed {
        assert multiset(Filter(s, IsCompleted)) == multiset{s[0]} + multiset(c) by {
          assert Filter(s, IsCompleted) == [s[0]] + c;
        }
      } else {
        assert multiset(Filter(s, IsPending)) == multiset{s[0]} + multiset(p) by {
          assert Filter(s, IsPending) == [s[0]] + p;
        }
      }
    }
  }

  /** Hence their lengths add up to the length of `s`. */
  lemma FilterPartitionLength(s: seq<Task>)
    ensures |Filter(s, IsCompleted)| + |Filter(s, IsPending)| == |s|
  {
  }

  // ---------------------------------------------------------------------------
  // Ids

  /** Some task of `ts` has the id `id`. */
  predicate HasId(ts: seq<Task>, id: TaskId) {
    exists k :: 0 <= k < |ts| && ts[k].id == id
  }

  /** No two tasks of `ts` share an id: the one invariant of the collection. */
  predicate UniqueIds(ts: seq<Task>) {
    forall i, j :: 0 <= i < j < |ts| ==> ts[i].id != ts[j].id
  }

  /** `ts.find(t => t.id === id)`, as a position: the index of the first task
      with that id, or `|ts|` when there is none. */
  function FindIndex(ts: seq<Task>, id: TaskId): (i: nat)
    ensures i <= |ts|
    ensures i < |ts| ==> ts[i].id == id
    ensures forall k :: 0 <= k < i ==> ts[k].id != id
    ensures i == |ts| <==> !HasId(ts, id)
    decreases |ts|
  {
    if ts == [] then 0 else if ts[0].id == id then 0 else 1 + FindIndex(ts[1..], id)
  }

  // ---------------------------------------------------------------------------
  // addTask

  /** The tasks after `addTask(text)` with the given id and timestamp: blank
      text is ignored; otherwise a pending task holding the trimmed text goes
      in front of the old tasks. */
  function Added(ts: seq<Task>, text: string, id: TaskId, createdAt: string): (r: seq<Task>)
    ensures IsBlank(text) <==> r == ts
    ensures !IsBlank(text) ==>
              && |r| == |ts| + 1
              && r[1..] == ts
              && r[0].id == id && r[0].createdAt == createdAt && !r[0].completed
              && r[0].text == Trim(text) && r[0].text != []
  {
    if IsBlank(text) then ts
    else
      TrimmedNotBlank(text);
      [Task(id, Trim(text), false, createdAt)] + ts
  }

  /** Adding under a fresh id keeps ids unique. */
  lemma AddPreservesUnique(ts: seq<Task>, text: string, id: TaskId, createdAt: string)
    requires UniqueIds(ts) && !HasId(ts, id)
    ensures UniqueIds(Added(ts, text, id, createdAt))
  {
  }

  /** The ids present after adding are the old ones plus, for non-blank text,
      the new one. */
  lemma AddIds(ts: seq<Task>, text: string, id: TaskId, createdAt: string, x: TaskId)
    ensures HasId(Added(ts, text, id, createdAt), x) <==> HasId(ts, x) || (x == id && !IsBlank(text))
  {
  }

  /** The task that `addTask` creates for one request (text, id, timestamp). */
  function RequestedTask(q: (string, TaskId, string)): Task {
    Task(q.1, Trim(q.0), false, q.2)
  }

  /** The tasks after a run of `addTask` calls, one per request, in order. */
  function AddedAll(ts: seq<Task>, requests: seq<(string, TaskId, string)>): seq<Task>
    decreases |requests|
  {
    if requests == [] then ts
    else AddedAll(Added(ts, requests[0].0, requests[0].1, requests[0].2), requests[1..])
  }

  /** The tasks created for `requests`, the last request's first. */
  function NewestFirst(requests: seq<(string, TaskId, string)>): (r: seq<Task>)
    ensures |r| == |requests|
    ensures forall k :: 0 <= k < |r| ==> r[k] == RequestedTask(requests[|requests| - 1 - k])
    decreases |requests|
  {
    if requests == [] then []
    else
      var rest := NewestFirst(requests[1..]);
      var r := rest + [RequestedTask(requests[0])];
      assert forall k :: 0 <= k < |rest| ==> r[k] == rest[k];
      r
  }

  /** Adding non-blank texts one after the other leaves them newest first, in
      front of the tasks that were there before. */
  lemma {:induction false} AddedAllNewestFirst(ts: seq<Task>, requests: seq<(string, TaskId, string)>)
    requires forall k :: 0 <= k < |requests| ==> !IsBlank(requests[k].0)
    ensures AddedAll(ts, requests) == NewestFirst(requests) + ts
    decreases |requests|
  {
    if requests != [] {
      var q0, rest := requests[0], requests[1..];
      var ts' := Added(ts, q0.0, q0.1, q0.2);
      assert ts' == [RequestedTask(q0)] + ts;
      AddedAllNewestFirst(ts', rest);
      calc {
        AddedAll(ts, requests);
        AddedAll(ts', rest);
        NewestFirst(rest) + ([RequestedTask(q0)] + ts);
        (NewestFirst(rest) + [RequestedTask(q0)]) + ts;
        NewestFirst(requests) + ts;
      }
    }
  }

  // ---------------------------------------------------------------------------
  // toggleTask

  /** The tasks after `toggleTask(id)`: the first task with that id has its
      `completed` flag flipped; without such a task nothing changes. */
  function Toggled(ts: seq<Task>, id: TaskId): (r: seq<Task>)
    ensures |r| == |ts|
    ensures !HasId(ts, id) ==> r == ts
    ensures HasId(ts, id) ==>
              var i := FindIndex(ts, id);
              r[i] == ts[i].(completed := !ts[i].completed)
    ensures forall k :: 0 <= k < |ts| && k != FindIndex(ts, id) ==> r[k] == ts[k]
    ensures forall k :: 0 <= k < |ts| ==> r[k].(completed := ts[k].completed) == ts[k]
  {
    var i := FindIndex(ts, id);
    if i == |ts| then ts else ts[i := ts[i].(completed := !ts[i].completed)]
  }

  /** Toggling keeps every id where it was, so the id invariant survives it. */
  lemma TogglePreservesIds(ts: seq<Task>, id: TaskId)
    ensures UniqueIds(Toggled(ts, id)) <==> UniqueIds(ts)
    ensures forall x :: HasId(Toggled(ts, id), x) <==> HasId(ts, x)
  {
  }

  /** Toggling the same id twice restores the collection. */
  lemma ToggleTwice(ts: seq<Task>, id: TaskId)
    ensures Toggled(Toggled(ts, id), id) == ts
  {
  }

  // ---------------------------------------------------------------------------
  // deleteTask

  /** The tasks after `deleteTask(id)`: every task whose id differs, in order. */
  function Deleted(ts: seq<Task>, id: TaskId): (r: seq<Task>)
    ensures !HasId(r, id)
    ensures !HasId(ts, id) ==> r == ts
  {
    assert !HasId(ts, id) ==> Filter(ts, OtherId(id)) == ts by {
      if !HasId(ts, id) {
        FilterKeepsAll(ts, OtherId(id));
      }
    }
    Filter(ts, OtherId(id))
  }

  /** A task survives deletion exactly when its id differs. */
  lemma DeleteMembers(ts: seq<Task>, id: TaskId)
    ensures forall t :: t in Deleted(ts, id) <==> t in ts && t.id != id
  {
    FilterMembers(ts, OtherId(id));
  }

  /** The tasks deletion keeps stay in their old order. */
  lemma DeleteKeepsOrder(ts: seq<Task>, id: TaskId)
    ensures IsSubsequence(Deleted(ts, id), ts)
  {
    FilterIsSubsequence(ts, OtherId(id));
  }

  /** Deleting an id a second time changes nothing. */
  lemma DeleteIdempotent(ts: seq<Task>, id: TaskId)
    ensures Deleted(Deleted(ts, id), id) == Deleted(ts, id)
  {
  }

  /** The tail of a sequence with unique ids has unique ids, none of them
      the id of the head. */
  lemma UniqueTail(ts: seq<Task>)
    requires ts != [] && UniqueIds(ts)
    ensures UniqueIds(ts[1..])
    ensures !HasId(ts[1..], ts[0].id)
  {
    var tail := ts[1..];
    forall a, b | 0 <= a < b < |tail| ensures tail[a].id != tail[b].id {
      assert tail[a] == ts[a + 1] && tail[b] == ts[b + 1];
    }
    forall k | 0 <= k < |tail| ensures tail[k].id != ts[0].id {
      assert tail[k] == ts[k + 1];
    }
  }

  /** With unique ids, deleting a present id removes exactly the one task that
      has it and keeps the others in place. */
  lemma {:induction false} DeleteRemovesOne(ts: seq<Task>, id: TaskId)
    requires UniqueIds(ts) && HasId(ts, id)
    ensures var i := FindIndex(ts, id);
            Deleted(ts, id) == ts[..i] + ts[i + 1..]
    ensures |Deleted(ts, id)| == |ts| - 1
    decreases |ts|
  {
    var i := FindIndex(ts, id);
    var tail := ts[1..];
    UniqueTail(ts);
    if ts[0].id == id {
      assert ts[..i] + ts[i + 1..] == tail;
      assert Deleted(ts, id) == Deleted(tail, id);
    } else {
      assert tail[i - 1] == ts[i];
      DeleteRemovesOne(tail, id);
      DeleteRemovesOneStep(ts, id, i);
    }
  }

  /** The inductive step of DeleteRemovesOne: a head with another id stays
      in front. */
  lemma DeleteRemovesOneStep(ts: seq<Task>, id: TaskId, i: nat)
    requires 0 < i < |ts| && ts[0].id != id
    requires Deleted(ts[1..], id) == ts[1..][..i - 1] + ts[1..][i..]
    ensures Deleted(ts, id) == ts[..i] + ts[i + 1..]
  {
    var tail := ts[1..];
    calc {
      Deleted(ts, id);
      [ts[0]] + Deleted(tail, id);
      [ts[0]] + (tail[..i - 1] + tail[i..]);
      ([ts[0]] + tail[..i - 1]) + tail[i..];
      { assert [ts[0]] + tail[..i - 1] == ts[..i]; assert tail[i..] == ts[i + 1..]; }
      ts[..i] + ts[i + 1..];
    }
  }

  /** Deletion keeps ids unique. */
  lemma {:induction false} DeletePreservesUnique(ts: seq<Task>, id: TaskId)
    requires UniqueIds(ts)
    ensures UniqueIds(Deleted(ts, id))
  {
    FilterUnique(ts, OtherId(id));
  }

  /** Filtering never makes two tasks share an id. */
  lemma {:induction false} FilterUnique(ts: seq<Task>, keep: Keep)
    requires UniqueIds(ts)
    ensures UniqueIds(Filter(ts, keep))
    decreases |ts|
  {
    if ts != [] {
      var tail := ts[1..];
      UniqueTail(ts);
      FilterUnique(tail, keep);
      FilterMembers(tail, keep);
      var rest := Filter(tail, keep);
      if keep.Admits(ts[0]) {
        var r := [ts[0]] + rest;
        forall j | 0 < j < |r| ensures r[0].id != r[j].id {
          assert r[j] == rest[j - 1];
          assert r[j] in tail;
          var k :| 0 <= k < |tail| && tail[k] == r[j];
        }
        assert Filter(ts, keep) == r;
      } else {
        assert Filter(ts, keep) == rest;
      }
    }
  }
}
