/**
  What `render` and `updateStats` compute from the manager's state before
  they touch the page: the filtered list, the empty-state message chosen
  when that list is empty, and the three counters.
 */
module View {
  import opened Text
  import opened Tasks

  // ---------------------------------------------------------------------------
  // The filter applied by render

  /** The tasks `render` shows for `currentFilter`: the completed ones for
      "completed", the pending ones for "pending", and all of them for "all"
      and for every other value. */
  function Visible(ts: seq<Task>, filter: string): (r: seq<Task>)
    ensures |r| <= |ts|
  {
    if filter == "completed" then Filter(ts, IsCompleted)
    else if filter == "pending" then Filter(ts, IsPending)
    else ts
  }

  /** A task is shown exactly when it is in the collection and matches the
      filter; a filter other than "completed" and "pending" shows everything. */
  lemma VisibleMembers(ts: seq<Task>, filter: string)
    ensures forall t :: t in Visible(ts, filter) <==>
              && t in ts
              && (filter == "completed" ==> t.completed)
              && (filter == "pending" ==> !t.completed)
    ensures filter != "completed" && filter != "pending" ==> Visible(ts, filter) == ts
  {
    FilterMembers(ts, IsCompleted);
    FilterMembers(ts, IsPending);
  }

  /** The shown tasks keep the collection's order. */
  lemma VisibleKeepsOrder(ts: seq<Task>, filter: string)
    ensures IsSubsequence(Visible(ts, filter), ts)
  {
    FilterIsSubsequence(ts, IsCompleted);
    FilterIsSubsequence(ts, IsPending);
    IsSubsequenceRefl(ts);
  }

  lemma {:induction false} IsSubsequenceRefl(s: seq<Task>)
    ensures IsSubsequence(s, s)
    decreases |s|
  {
    if s != [] {
      IsSubsequenceRefl(s[1..]);
    }
  }

  /** Filtering a concatenation filters each part. */
  lemma VisibleAppend(a: seq<Task>, b: seq<Task>, filter: string)
    ensures Visible(a + b, filter) == Visible(a, filter) + Visible(b, filter)
  {
    FilterAppend(a, b, IsCompleted);
    FilterAppend(a, b, IsPending);
  }

  /** The "completed" and "pending" views partition the "all" view: no task is
      lost or shown twice, and their lengths add up to the total. */
  lemma VisiblePartition(ts: seq<Task>)
    ensures multiset(Visible(ts, "completed")) + multiset(Visible(ts, "pending")) == multiset(Visible(ts, "all"))
    ensures |Visible(ts, "completed")| + |Visible(ts, "pending")| == |ts|
  {
    FilterPartition(ts);
    FilterPartitionLength(ts);
  }

  // ---------------------------------------------------------------------------
  // The empty state

  /** The three messages `render` can show instead of a list. */
  datatype EmptyMessage = CanvasAwaits | NoCompletedYet | AllTasksCompleted

  /** The markup of each message, as the page shows it. */
  function MessageText(m: EmptyMessage): string {
    match m
    case CanvasAwaits => "Your canvas awaits.<br>Begin with your first task."
    case NoCompletedYet => "No completed tasks yet.<br>Start checking off your accomplishments!"
    case AllTasksCompleted => "All tasks completed!<br>You're doing amazing! \U{1F389}"
  }

  /** The choice `render` makes once the filtered list is empty. */
  function ChooseEmptyMessage(ts: seq<Task>, filter: string): EmptyMessage {
    if filter == "completed" && |ts| > 0 then NoCompletedYet
    else if filter == "pending" && |ts| > 0 then AllTasksCompleted
    else CanvasAwaits
  }

  /** What `render` puts in the list element. */
  datatype Screen = EmptyState(message: EmptyMessage) | TaskRows(rows: seq<Task>)

  /** `render`: one row per visible task, or an empty-state message. */
  function RenderView(ts: seq<Task>, filter: string): (v: Screen)
    ensures v.EmptyState? <==> Visible(ts, filter) == []
    ensures v.TaskRows? ==> v.rows == Visible(ts, filter) && v.rows != []
  {
    var filtered := Visible(ts, filter);
    if |filtered| == 0 then EmptyState(ChooseEmptyMessage(ts, filter)) else TaskRows(filtered)
  }

  /** The default message appears exactly when there are no tasks at all,
      whatever the filter: with tasks present, an unrecognised filter shows
      them all and the two named filters have messages of their own. */
  lemma CanvasAwaitsIffNoTasks(ts: seq<Task>, filter: string)
    ensures RenderView(ts, filter) == EmptyState(CanvasAwaits) <==> ts == []
  {
  }

  /** "No completed tasks yet" appears exactly when the filter is "completed",
      there are tasks, and none of them is completed. */
  lemma NoCompletedYetIff(ts: seq<Task>, filter: string)
    ensures RenderView(ts, filter) == EmptyState(NoCompletedYet) <==>
              filter == "completed" && ts != [] && forall k :: 0 <= k < |ts| ==> !ts[k].completed
  {
    FilterEmpty(ts, IsCompleted);
  }

  /** "All tasks completed!" appears exactly when the filter is "pending",
      there are tasks, and every one of them is completed. */
  lemma AllTasksCompletedIff(ts: seq<Task>, filter: string)
    ensures RenderView(ts, filter) == EmptyState(AllTasksCompleted) <==>
              filter == "pending" && ts != [] && forall k :: 0 <= k < |ts| ==> ts[k].completed
  {
    FilterEmpty(ts, IsPending);
  }

  // ---------------------------------------------------------------------------
  // The counters of updateStats

  /** The three numbers shown in the stats bar. */
  datatype Stats = Stats(total: int, completed: int, pending: int)

  /** `updateStats`: counted on the whole collection, never on the filtered
      view; `pending` is `total - completed`. */
  function ComputeStats(ts: seq<Task>): (s: Stats)
    ensures s.total == |ts|
    ensures 0 <= s.completed <= s.total
    ensures s.pending == |Filter(ts, IsPending)| == s.total - s.completed
    ensures s.completed == |Visible(ts, "completed")| && s.pending == |Visible(ts, "pending")|
  {
    FilterPartitionLength(ts);
    var total := |ts|;
    var completed := |Filter(ts, IsCompleted)|;
    Stats(total, completed, total - completed)
  }

  /** Adding a task raises the total and the pending count by one; ignored
      blank text changes no counter. */
  lemma AddedStats(ts: seq<Task>, text: string, id: TaskId, createdAt: string)
    ensures var before, after := ComputeStats(ts), ComputeStats(Added(ts, text, id, createdAt));
            if IsBlank(text) then after == before
            else after == Stats(before.total + 1, before.completed, before.pending + 1)
  {
  }

  /** Toggling a present id moves one task between the completed and the
      pending count; the total stays. */
  lemma ToggledStats(ts: seq<Task>, id: TaskId)
    ensures var before, after := ComputeStats(ts), ComputeStats(Toggled(ts, id));
            after.total == before.total
            && (!HasId(ts, id) ==> after == before)
            && (HasId(ts, id) && ts[FindIndex(ts, id)].completed ==> after.completed == before.completed - 1)
            && (HasId(ts, id) && !ts[FindIndex(ts, id)].completed ==> after.completed == before.completed + 1)
  {
    if HasId(ts, id) {
      var i := FindIndex(ts, id);
      var r := Toggled(ts, id);
      assert r[..i] == ts[..i] && r[i + 1..] == ts[i + 1..];
      FilterCountAt(ts, i, IsCompleted);
      FilterCountAt(r, i, IsCompleted);
    }
  }

  /** With unique ids, deleting a present id lowers the total by one and the
      deleted task's own counter by one. */
  lemma DeletedStats(ts: seq<Task>, id: TaskId)
    requires UniqueIds(ts)
    ensures var before, after := ComputeStats(ts), ComputeStats(Deleted(ts, id));
            && (!HasId(ts, id) ==> after == before)
            && (HasId(ts, id) ==> after.total == before.total - 1)
            && (HasId(ts, id) && ts[FindIndex(ts, id)].completed ==> after.completed == before.completed - 1)
            && (HasId(ts, id) && !ts[FindIndex(ts, id)].completed ==> after.completed == before.completed)
  {
    if HasId(ts, id) {
      var i := FindIndex(ts, id);
      DeleteRemovesOne(ts, id);
      FilterCountAt(ts, i, IsCompleted);
      FilterAppend(ts[..i], ts[i + 1..], IsCompleted);
    }
  }

  /** A worked example: starting empty, add "Buy milk", add "Write spec",
      then toggle "Buy milk". */
  lemma BuyMilkWalkthrough()
    ensures var s1 := Added([], "Buy milk", 1, "t1");
            var s2 := Added(s1, "Write spec", 2, "t2");
            var s3 := Toggled(s2, 1);
            && |s3| == 2
            && s3[0].text == "Write spec" && !s3[0].completed
            && s3[1].text == "Buy milk" && s3[1].completed
            && ComputeStats(s3) == Stats(2, 1, 1)
  {
    TrimKeepsTrimmed("Buy milk");
    TrimKeepsTrimmed("Write spec");
    var milk, spec := Task(1, "Buy milk", false, "t1"), Task(2, "Write spec", false, "t2");
    var s2 := Added(Added([], "Buy milk", 1, "t1"), "Write spec", 2, "t2");
    assert s2 == [spec, milk];
    assert FindIndex(s2, 1) == 1;
    var s3 := Toggled(s2, 1);
    assert s3 == [spec, milk.(completed := true)];
    assert Filter(s3, IsCompleted) == [s3[1]];
  }
}
