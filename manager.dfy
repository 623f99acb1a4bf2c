/**
  `ProductivityManager`: the object that owns the ordered task collection and
  the current filter, with the three mutators and the two read-only passes
  (`render`, `updateStats`) that the page calls after each of them.
 */
module Manager {
  import opened Text
  import opened Tasks
  import opened View

  class ProductivityManager {
    /** `this.tasks`, newest first. */
    var tasks: seq<Task>
    /** `this.currentFilter`: "all", "completed", "pending" or whatever the
        clicked element's `data-filter` held. */
    var currentFilter: string

    /** The constructor, given what `loadFromStorage` returned. */
    constructor (stored: seq<Task>)
      ensures tasks == stored && currentFilter == "all"
    {
      tasks := stored;
      currentFilter := "all";
    }

    /** `addTask(text)`: with the id and the ISO timestamp the page would
        generate passed in. */
    method AddTask(text: string, id: TaskId, createdAt: string)
      modifies this
      ensures tasks == Added(old(tasks), text, id, createdAt)
      ensures IsBlank(text) ==> tasks == old(tasks)
      ensures !IsBlank(text) ==> tasks == [Task(id, Trim(text), false, createdAt)] + old(tasks)
      ensures UniqueIds(old(tasks)) && !HasId(old(tasks), id) ==> UniqueIds(tasks)
      ensures currentFilter == old(currentFilter)
    {
      if IsBlank(text) {
        return;
      }
      var task := Task(id, Trim(text), false, createdAt);
      tasks := [task] + tasks;
    }

    /** `toggleTask(id)`: flips the first task with that id, if any. */
    method ToggleTask(id: TaskId)
      modifies this
      ensures tasks == Toggled(old(tasks), id)
      ensures !HasId(old(tasks), id) ==> tasks == old(tasks)
      ensures |tasks| == |old(tasks)|
      ensures UniqueIds(tasks) <==> UniqueIds(old(tasks))
      ensures currentFilter == old(currentFilter)
    {
      TogglePreservesIds(tasks, id);
      var i := FindIndex(tasks, id);
      if i < |tasks| {
        var task := tasks[i];
        tasks := tasks[i := task.(completed := !task.completed)];
      }
    }

    /** `deleteTask(id)`: keeps every task whose id differs. */
    method DeleteTask(id: TaskId)
      modifies this
      ensures tasks == Deleted(old(tasks), id)
      ensures !HasId(tasks, id)
      ensures !HasId(old(tasks), id) ==> tasks == old(tasks)
      ensures UniqueIds(old(tasks)) ==> UniqueIds(tasks)
      ensures currentFilter == old(currentFilter)
    {
      assert UniqueIds(tasks) ==> UniqueIds(Deleted(tasks, id)) by {
        if UniqueIds(tasks) {
          DeletePreservesUnique(tasks, id);
        }
      }
      tasks := Deleted(tasks, id);
    }

    /** The click handler of a stat item: stores its `data-filter`. */
    method SetFilter(filter: string)
      modifies this
      ensures currentFilter == filter && tasks == old(tasks)
    {
      currentFilter := filter;
    }

    /** `render`: filters the tasks, then shows them or an empty-state message.
        The body follows the source's statements one by one; `RenderView` is
        the same computation as a value, for the lemmas to talk about. */
    method Render() returns (screen: Screen)
      ensures screen == RenderView(tasks, currentFilter)
      ensures screen.TaskRows? ==> screen.rows != [] && IsSubsequence(screen.rows, tasks)
      ensures screen == EmptyState(CanvasAwaits) <==> tasks == []
    {
      VisibleKeepsOrder(tasks, currentFilter);
      CanvasAwaitsIffNoTasks(tasks, currentFilter);
      var filtered := tasks;
      if currentFilter == "completed" {
        filtered := Filter(tasks, IsCompleted);
      } else if currentFilter == "pending" {
        filtered := Filter(tasks, IsPending);
      }
      if |filtered| == 0 {
        var message := CanvasAwaits;
        if currentFilter == "completed" && |tasks| > 0 {
          message := NoCompletedYet;
        } else if currentFilter == "pending" && |tasks| > 0 {
          message := AllTasksCompleted;
        }
        return EmptyState(message);
      }
      screen := TaskRows(filtered);
    }

    /** `updateStats`: the counters, from the unfiltered collection. The body
        follows the source's three assignments; `ComputeStats` is the same
        computation as a value, for the lemmas to talk about. */
    method UpdateStats() returns (stats: Stats)
      ensures stats == ComputeStats(tasks)
      ensures stats.total == |tasks| && 0 <= stats.completed <= stats.total
      ensures stats.pending == stats.total - stats.completed
    {
      var total := |tasks|;
      var completed := |Filter(tasks, IsCompleted)|;
      var pending := total - completed;
      stats := Stats(total, completed, pending);
    }
  }
}
