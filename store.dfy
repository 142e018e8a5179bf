/** The page component's state as an object: the task list, the text typed into the input
    field and the selected tab. Each handler replaces the list through one state-setter call;
    the methods below do the same to the `todos` field, and each is specified by the pure
    list function of module Todos that it applies. */
module Store {
  import opened TimeMath
  import opened JsText
  import opened Todos

  class TodoStore {
    /** The ordered task list (the `todos` state). */
    var todos: seq<Todo>
    /** The content of the new-task input field (the `newTodo` state). */
    var draft: string
    /** The selected tab (the `filter` state). */
    var filter: StatusFilter

    /** The component's initial state: no tasks, an empty field, the "all" tab. */
    constructor ()
      ensures todos == [] && draft == "" && filter == All
    {
      todos := [];
      draft := "";
      filter := All;
    }

    /** The input field's change handler. */
    method SetDraft(text: string)
      modifies this
      ensures draft == text
      ensures todos == old(todos) && filter == old(filter)
    {
      draft := text;
    }

    /** The tabs' change handler. */
    method SetFilter(f: StatusFilter)
      modifies this
      ensures filter == f
      ensures todos == old(todos) && draft == old(draft)
    {
      filter := f;
    }

    /** addTodo, with `id` standing for the value of crypto.randomUUID, `date` for the date
        state and `now` for the clock. Blank input changes nothing; otherwise the task is
        appended and the input field is cleared. */
    method Add(id: string, date: Time, now: Time)
      requires !HasId(todos, id)
      modifies this
      ensures todos == AddTodo(old(todos), id, old(draft), date, now)
      ensures draft == if IsBlank(old(draft)) then old(draft) else ""
      ensures filter == old(filter)
      ensures old(UniqueIds(todos)) ==> UniqueIds(todos)
    {
      if UniqueIds(todos) {
        AddKeepsIdsUnique(todos, id, draft, date, now);
      }
      if Trim(draft) == "" {
        return;
      }
      var item := Todo(id, draft, Pending, date);
      if IsAfter(now, date) {
        item := item.(status := Expired);
      }
      todos := todos + [item];
      draft := "";
    }

    /** toggleTodoStatus, unguarded. */
    method Toggle(id: string)
      modifies this
      ensures todos == ToggleTodoStatus(old(todos), id)
      ensures draft == old(draft) && filter == old(filter)
      ensures old(UniqueIds(todos)) ==> UniqueIds(todos)
    {
      if UniqueIds(todos) {
        ToggleKeepsIdsUnique(todos, id);
      }
      todos := ToggleTodoStatus(todos, id);
    }

    /** The checkbox of a rendered task: it toggles only when that task is not expired. */
    method CheckboxChange(clicked: Todo)
      modifies this
      ensures todos == CheckboxToggle(old(todos), clicked)
      ensures clicked.status == Expired ==> todos == old(todos)
      ensures draft == old(draft) && filter == old(filter)
      ensures old(UniqueIds(todos)) ==> UniqueIds(todos)
    {
      if clicked.status != Expired {
        Toggle(clicked.id);
      }
    }

    /** deleteTodo. */
    method Delete(id: string)
      modifies this
      ensures todos == DeleteTodo(old(todos), id)
      ensures !old(HasId(todos, id)) ==> todos == old(todos)
      ensures old(UniqueIds(todos)) && old(HasId(todos, id)) ==> |todos| == |old(todos)| - 1
      ensures draft == old(draft) && filter == old(filter)
      ensures old(UniqueIds(todos)) ==> UniqueIds(todos)
    {
      if !HasId(todos, id) {
        DeleteAbsentIsNoop(todos, id);
      } else if UniqueIds(todos) {
        DeleteRemovesOne(todos, id);
      }
      if UniqueIds(todos) {
        DeleteKeepsIdsUnique(todos, id);
      }
      todos := DeleteTodo(todos, id);
    }

    /** The expiry sweep against the instant `now`. */
    method Sweep(now: Time)
      modifies this
      ensures todos == ExpireOverdue(old(todos), now)
      ensures draft == old(draft) && filter == old(filter)
      ensures old(UniqueIds(todos)) ==> UniqueIds(todos)
    {
      if UniqueIds(todos) {
        SweepKeepsIdsUnique(todos, now);
      }
      todos := ExpireOverdue(todos, now);
    }

    /** The load effect, given what was read from storage and parsed, and the load instant. */
    method Load(stored: Stored, now: Time)
      modifies this
      ensures todos == Loaded(old(todos), stored, now)
      ensures draft == old(draft) && filter == old(filter)
    {
      match stored {
        case Records(items) => todos := ExpireOverdue(items, now);
        case Absent =>
        case Corrupt =>
      }
    }

    /** The tasks of the selected tab. */
    function Visible(): (r: seq<Todo>)
      reads this
      ensures filter == All ==> r == todos
      ensures filter.Only? ==> forall t :: t in r <==> t in todos && t.status == filter.status
    {
      FilteredTodos(todos, filter)
    }

    /** The footer's badges. */
    function Footer(): (c: Counts)
      reads this
      ensures c.completed + c.pending + c.expired == |todos|
    {
      FooterCounts(todos)
    }
  }

  /** A task whose due instant is already past is created expired, and its checkbox does
      nothing. */
  method ScenarioPastDue(now: Time)
  {
    var store := new TodoStore();
    store.SetDraft("Pay bill");
    assert !IsJsWhitespace(store.draft[0]);
    store.Add("bill", now - MsPerDay, now);
    assert store.todos == [Todo("bill", "Pay bill", Expired, now - MsPerDay)];
    store.CheckboxChange(store.todos[0]);
    assert store.todos[0].status == Expired;
  }

  /** A task due in three days is created pending, and a sweep four days on expires it. */
  method ScenarioSweepExpires(now: Time)
  {
    var store := new TodoStore();
    store.SetDraft("Buy milk");
    assert !IsJsWhitespace(store.draft[0]);
    store.Add("milk", now + 3 * MsPerDay, now);
    assert store.todos == [Todo("milk", "Buy milk", Pending, now + 3 * MsPerDay)];
    store.Sweep(now + 4 * MsPerDay);
    assert store.todos[0].status == Expired;
  }

  /** A task checked off before its due instant stays completed through a sweep thirty days on. */
  method ScenarioCompletedSurvives(now: Time)
  {
    var store := new TodoStore();
    store.SetDraft("Call home");
    assert !IsJsWhitespace(store.draft[0]);
    store.Add("call", now + 3 * MsPerDay, now);
    assert store.todos == [Todo("call", "Call home", Pending, now + 3 * MsPerDay)];
    store.CheckboxChange(store.todos[0]);
    assert store.todos[0].status == Completed;
    store.Sweep(now + 30 * MsPerDay);
    assert store.todos[0].status == Completed;
  }

  /** Blank input adds nothing and keeps the field's content. */
  method ScenarioBlank(now: Time)
  {
    var store := new TodoStore();
    store.SetDraft(" \t ");
    store.Add("blank", now, now);
    assert store.todos == [] && store.draft == " \t ";
  }
}
