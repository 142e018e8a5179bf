/** The task entity and every transformation the tracker applies to its ordered task list:
    add, toggle, the checkbox's guarded toggle, delete, the expiry sweep, load, the status
    filter and the footer counts. Each is a pure function of the list, as the source writes
    them with spread, `map` and `filter`. */
module Todos {
  import opened TimeMath
  import opened JsText
  import Seqs

  datatype Status = Pending | Completed | Expired

  /** One task: an opaque id, the label as typed, its status and its due instant. */
  datatype Todo = Todo(id: string, text: string, status: Status, date: Time)

  /** a and b are the same task, whatever their statuses. */
  predicate SameTask(a: Todo, b: Todo) {
    a.id == b.id && a.text == b.text && a.date == b.date
  }

  predicate HasId(todos: seq<Todo>, id: string) {
    exists t :: t in todos && t.id == id
  }

  /** No two tasks of the list share an id. */
  predicate UniqueIds(todos: seq<Todo>) {
    forall i, j :: 0 <= i < j < |todos| ==> todos[i].id != todos[j].id
  }

  function HasStatus(s: Status): Todo -> bool {
    (t: Todo) => t.status == s
  }

  function OtherId(id: string): Todo -> bool {
    (t: Todo) => t.id != id
  }

  // ---------------------------------------------------------------------------
  // addTodo

  /** The task addTodo builds: pending, then changed to expired in place when the chosen
      instant already lies in the past. */
  function NewTodo(id: string, text: string, date: Time, now: Time): (t: Todo)
    ensures t.id == id && t.text == text && t.date == date
    ensures t.status == Expired <==> now > date
    ensures t.status != Completed
  {
    var t := Todo(id, text, Pending, date);
    if IsAfter(now, date) then t.(status := Expired) else t
  }

  /** addTodo: blank text (empty once trimmed) is ignored; any other text is stored as typed,
      in one new task appended after all existing ones. */
  function AddTodo(todos: seq<Todo>, id: string, text: string, date: Time, now: Time): (r: seq<Todo>)
    ensures IsBlank(text) ==> r == todos
    ensures !IsBlank(text) ==> |r| == |todos| + 1 && r[..|todos|] == todos
    ensures !IsBlank(text) ==> r[|todos|] == NewTodo(id, text, date, now)
  {
    if Trim(text) == "" then todos else todos + [NewTodo(id, text, date, now)]
  }

  /** Adding under a fresh id keeps ids unique. */
  lemma AddKeepsIdsUnique(todos: seq<Todo>, id: string, text: string, date: Time, now: Time)
    requires UniqueIds(todos) && !HasId(todos, id)
    ensures UniqueIds(AddTodo(todos, id, text, date, now))
  {
    var r := AddTodo(todos, id, text, date, now);
    forall i, j | 0 <= i < j < |r| ensures r[i].id != r[j].id {
      if j == |todos| {
        assert r[i] == todos[i] && todos[i] in todos;
      }
    }
  }

  // ---------------------------------------------------------------------------
  // toggleTodoStatus and the checkbox handler

  /** The raw toggle: pending becomes completed, and every other status, expired included,
      becomes pending. */
  function ToggledStatus(s: Status): (r: Status)
    ensures r != Expired
    ensures r == Completed <==> s == Pending
  {
    if s == Pending then Completed else Pending
  }

  /** Toggling twice restores exactly the statuses a checkbox can show. */
  lemma ToggledTwice(s: Status)
    ensures ToggledStatus(ToggledStatus(s)) == s <==> s != Expired
  {
  }

  /** toggleTodoStatus: every task whose id matches has its status toggled; all others, and
      every id, text and date, stay as they were. */
  function ToggleTodoStatus(todos: seq<Todo>, id: string): (r: seq<Todo>)
    ensures |r| == |todos|
    ensures forall i :: 0 <= i < |r| ==> SameTask(r[i], todos[i])
    ensures forall i :: 0 <= i < |r| && todos[i].id != id ==> r[i] == todos[i]
    ensures forall i :: 0 <= i < |r| && todos[i].id == id ==> r[i].status == ToggledStatus(todos[i].status)
  {
    seq(|todos|, i requires 0 <= i < |todos| =>
      if todos[i].id == id then todos[i].(status := ToggledStatus(todos[i].status)) else todos[i])
  }

  /** An id that no task carries leaves the list unchanged. */
  lemma ToggleAbsentIsNoop(todos: seq<Todo>, id: string)
    requires !HasId(todos, id)
    ensures ToggleTodoStatus(todos, id) == todos
  {
    var r := ToggleTodoStatus(todos, id);
    forall i | 0 <= i < |todos| ensures r[i] == todos[i] {
      assert todos[i] in todos;
    }
  }

  /** Toggling the same id twice restores the list when no task with that id is expired. */
  lemma ToggleTwiceRestores(todos: seq<Todo>, id: string)
    requires forall t :: t in todos && t.id == id ==> t.status != Expired
    ensures ToggleTodoStatus(ToggleTodoStatus(todos, id), id) == todos
  {
    var r := ToggleTodoStatus(ToggleTodoStatus(todos, id), id);
    forall i | 0 <= i < |todos| ensures r[i] == todos[i] {
      assert todos[i] in todos;
      ToggledTwice(todos[i].status);
    }
  }

  lemma ToggleKeepsIdsUnique(todos: seq<Todo>, id: string)
    requires UniqueIds(todos)
    ensures UniqueIds(ToggleTodoStatus(todos, id))
  {
  }

  /** The checkbox's change handler: it calls the raw toggle with the clicked task's id unless
      that task is expired. */
  function CheckboxToggle(todos: seq<Todo>, clicked: Todo): (r: seq<Todo>)
    ensures clicked.status == Expired ==> r == todos
    ensures |r| == |todos|
  {
    if clicked.status != Expired then ToggleTodoStatus(todos, clicked.id) else todos
  }

  /** Clicking the checkbox of task k, when ids are unique, changes task k alone: an expired
      task stays as it is and any other task has its status toggled. In particular no
      expired task ever leaves the expired state through the checkbox. */
  lemma CheckboxToggleEffect(todos: seq<Todo>, k: nat)
    requires UniqueIds(todos) && k < |todos|
    ensures var r := CheckboxToggle(todos, todos[k]);
      && (forall i :: 0 <= i < |todos| && i != k ==> r[i] == todos[i])
      && (todos[k].status == Expired ==> r[k] == todos[k])
      && (todos[k].status != Expired ==> r[k] == todos[k].(status := ToggledStatus(todos[k].status)))
  {
  }

  // ---------------------------------------------------------------------------
  // deleteTodo

  /** deleteTodo: keeps the tasks whose id differs from the given one. */
  function DeleteTodo(todos: seq<Todo>, id: string): (r: seq<Todo>)
    ensures |r| <= |todos|
    ensures forall t :: t in r <==> t in todos && t.id != id
  {
    Seqs.Filter(todos, OtherId(id))
  }

  /** Deletion keeps relative order: deleting from a concatenation deletes from each part. */
  lemma DeleteConcat(a: seq<Todo>, b: seq<Todo>, id: string)
    ensures DeleteTodo(a + b, id) == DeleteTodo(a, id) + DeleteTodo(b, id)
  {
    Seqs.FilterConcat(a, b, OtherId(id));
  }

  /** Deleting an id no task carries leaves the list unchanged. */
  lemma DeleteAbsentIsNoop(todos: seq<Todo>, id: string)
    requires !HasId(todos, id)
    ensures DeleteTodo(todos, id) == todos
  {
    Seqs.FilterKeepsAll(todos, OtherId(id));
  }

  /** With unique ids, deleting an id that is present removes exactly one task. */
  lemma {:induction false} DeleteRemovesOne(todos: seq<Todo>, id: string)
    requires UniqueIds(todos) && HasId(todos, id)
    ensures |DeleteTodo(todos, id)| == |todos| - 1
  {
    assert todos == [todos[0]] + todos[1..];
    if todos[0].id == id {
      forall t | t in todos[1..] ensures t.id != id {
        var j :| 1 <= j < |todos| && todos[j] == t;
      }
      DeleteAbsentIsNoop(todos[1..], id);
    } else {
      var t :| t in todos && t.id == id;
      assert t in todos[1..];
      DeleteRemovesOne(todos[1..], id);
    }
  }

  lemma {:induction false} DeleteKeepsIdsUnique(todos: seq<Todo>, id: string)
    requires UniqueIds(todos)
    ensures UniqueIds(DeleteTodo(todos, id))
  {
    if todos != [] {
      assert todos == [todos[0]] + todos[1..];
      DeleteKeepsIdsUnique(todos[1..], id);
      var rest := DeleteTodo(todos[1..], id);
      forall t | t in rest ensures t.id != todos[0].id {
        var j :| 1 <= j < |todos| && todos[j] == t;
      }
    }
  }

  // ---------------------------------------------------------------------------
  // The expiry sweep (interval callback and load effect)

  /** The sweep's map callback for one task. */
  function ExpireIfOverdue(t: Todo, now: Time): (u: Todo)
    ensures SameTask(u, t)
    ensures t.status != Pending ==> u == t
    ensures t.status == Pending ==> u.status != Completed && (u.status == Expired <==> now > t.date)
  {
    if t.status == Pending && IsAfter(now, t.date) then t.(status := Expired) else t
  }

  /** The expiry sweep: a pending task whose due instant lies strictly before now becomes
      expired; completed and expired tasks are left alone; length, order, ids, texts and dates
      are kept. */
  function ExpireOverdue(todos: seq<Todo>, now: Time): (r: seq<Todo>)
    ensures |r| == |todos|
    ensures forall i :: 0 <= i < |r| ==> SameTask(r[i], todos[i])
    ensures forall i :: 0 <= i < |r| && todos[i].status != Pending ==> r[i] == todos[i]
    ensures forall i :: 0 <= i < |r| && todos[i].status == Pending ==>
      r[i].status != Completed && (r[i].status == Expired <==> now > todos[i].date)
  {
    seq(|todos|, i requires 0 <= i < |todos| => ExpireIfOverdue(todos[i], now))
  }

  /** After a sweep no pending task is overdue. */
  lemma SweepLeavesNoOverdue(todos: seq<Todo>, now: Time)
    ensures forall t :: t in ExpireOverdue(todos, now) && t.status == Pending ==> t.date >= now
  {
  }

  /** A sweep followed by a sweep at a later (or the same) instant is that later sweep alone. */
  lemma SweepThenLaterSweep(todos: seq<Todo>, now1: Time, now2: Time)
    requires now1 <= now2
    ensures ExpireOverdue(ExpireOverdue(todos, now1), now2) == ExpireOverdue(todos, now2)
  {
  }

  /** Sweeping twice with the same instant is sweeping once. */
  lemma SweepIdempotent(todos: seq<Todo>, now: Time)
    ensures ExpireOverdue(ExpireOverdue(todos, now), now) == ExpireOverdue(todos, now)
  {
    SweepThenLaterSweep(todos, now, now);
  }

  /** A later instant expires every task an earlier instant expires, and possibly more. */
  lemma SweepMonotone(todos: seq<Todo>, now1: Time, now2: Time)
    requires now1 <= now2
    ensures forall i :: 0 <= i < |todos| && ExpireOverdue(todos, now1)[i].status == Expired ==>
      ExpireOverdue(todos, now2)[i].status == Expired
  {
  }

  lemma SweepKeepsIdsUnique(todos: seq<Todo>, now: Time)
    requires UniqueIds(todos)
    ensures UniqueIds(ExpireOverdue(todos, now))
  {
  }

  // ---------------------------------------------------------------------------
  // Loading the persisted list

  /** What the load effect finds in storage, after JSON.parse: nothing (a missing or empty
      item), something that fails to parse or is not a list, or a list of records. */
  datatype Stored = Absent | Corrupt | Records(items: seq<Todo>)

  /** The load effect: an absent or unparsable item leaves the current list (initially empty)
      as it is; a parsed list replaces it, swept against the load instant. */
  function Loaded(current: seq<Todo>, stored: Stored, now: Time): (r: seq<Todo>)
    ensures !stored.Records? ==> r == current
    ensures stored.Records? ==> |r| == |stored.items|
    ensures stored.Records? ==> forall i :: 0 <= i < |r| ==> SameTask(r[i], stored.items[i])
    ensures stored.Records? ==> forall i :: 0 <= i < |r| && stored.items[i].status != Pending ==>
      r[i] == stored.items[i]
    ensures stored.Records? ==> forall i :: 0 <= i < |r| && stored.items[i].status == Pending ==>
      r[i].status != Completed && (r[i].status == Expired <==> now > stored.items[i].date)
    ensures stored.Records? ==> forall t :: t in r && t.status == Pending ==> t.date >= now
  {
    match stored
    case Absent => current
    case Corrupt => current
    case Records(items) => ExpireOverdue(items, now)
  }

  /** Loading a saved list reproduces it exactly, when none of its pending tasks has become
      overdue meanwhile. */
  lemma ReloadReproduces(current: seq<Todo>, todos: seq<Todo>, now: Time)
    requires forall t :: t in todos && t.status == Pending ==> t.date >= now
    ensures Loaded(current, Records(todos), now) == todos
  {
    var r := Loaded(current, Records(todos), now);
    forall i | 0 <= i < |todos| ensures r[i] == todos[i] {
      assert todos[i] in todos;
    }
  }

  /** Loading checks no ids: two stored records that share an id are both taken in, so
      unique ids do not survive a load. */
  lemma LoadAdmitsDuplicateIds()
    ensures !UniqueIds(Loaded([], Records([Todo("a", "x", Completed, 0), Todo("a", "y", Completed, 0)]), 0))
  {
    var r := Loaded([], Records([Todo("a", "x", Completed, 0), Todo("a", "y", Completed, 0)]), 0);
    assert r[0].id == r[1].id;
  }

  // ---------------------------------------------------------------------------
  // The status filter and the footer counts

  datatype StatusFilter = All | Only(status: Status)

  /** filteredTodos: the whole list for "all", otherwise the tasks of exactly that status. */
  function FilteredTodos(todos: seq<Todo>, f: StatusFilter): (r: seq<Todo>)
    ensures f == All ==> r == todos
    ensures f.Only? ==> forall t :: t in r <==> t in todos && t.status == f.status
  {
    match f
    case All => todos
    case Only(s) => Seqs.Filter(todos, HasStatus(s))
  }

  /** Filtering keeps relative order: filtering a concatenation filters each part. */
  lemma FilterConcat(a: seq<Todo>, b: seq<Todo>, f: StatusFilter)
    ensures FilteredTodos(a + b, f) == FilteredTodos(a, f) + FilteredTodos(b, f)
  {
    if f.Only? {
      Seqs.FilterConcat(a, b, HasStatus(f.status));
    }
  }

  /** The number shown in the footer for one status. */
  function StatusCount(todos: seq<Todo>, s: Status): (n: nat)
    ensures n <= |todos|
  {
    |FilteredTodos(todos, Only(s))|
  }

  datatype Counts = Counts(completed: nat, pending: nat, expired: nat)

  /** The footer's three badges. */
  function FooterCounts(todos: seq<Todo>): (c: Counts)
    ensures c.completed + c.pending + c.expired == |todos|
  {
    CountsPartition(todos);
    Counts(StatusCount(todos, Completed), StatusCount(todos, Pending), StatusCount(todos, Expired))
  }

  /** Every task is counted under exactly one status. */
  lemma {:induction false} CountsPartition(todos: seq<Todo>)
    ensures StatusCount(todos, Completed) + StatusCount(todos, Pending) + StatusCount(todos, Expired) == |todos|
  {
    if todos != [] {
      CountsPartition(todos[1..]);
    }
  }

  /** The sweep moves tasks only from pending to expired: the completed count is unchanged and
      the pending and expired counts trade between each other. */
  lemma {:induction false} SweepPreservesCounts(todos: seq<Todo>, now: Time)
    ensures StatusCount(ExpireOverdue(todos, now), Completed) == StatusCount(todos, Completed)
    ensures StatusCount(ExpireOverdue(todos, now), Pending) + StatusCount(ExpireOverdue(todos, now), Expired)
         == StatusCount(todos, Pending) + StatusCount(todos, Expired)
  {
    if todos != [] {
      var r := ExpireOverdue(todos, now);
      assert r[1..] == ExpireOverdue(todos[1..], now);
      SweepPreservesCounts(todos[1..], now);
    }
  }
}
