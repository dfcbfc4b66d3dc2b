/** The in-memory todo list behind `/api/todos`, shared by all users. Each
    request acts only on the todos whose owner is the caller's resolved user id;
    a todo of someone else is treated exactly like one that does not exist. */
module Todos {
  import opened Js

  datatype Todo = Todo(id: string, title: string, completed: bool, userId: string)

  /** The list the server starts with. */
  const SeedTodos: seq<Todo> := [
    Todo("todo-1", "Review Q4 report", false, "1"),
    Todo("todo-2", "Update deployment docs", false, "1"),
    Todo("todo-3", "Fix login bug", true, "2")
  ]

  ghost predicate UniqueIds(todos: seq<Todo>) {
    forall i, j :: 0 <= i < |todos| && 0 <= j < |todos| && todos[i].id == todos[j].id ==> i == j
  }

  /** The todos of `userId`, in list order. */
  function OwnedBy(todos: seq<Todo>, userId: string): seq<Todo> {
    if todos == [] then []
    else (if todos[0].userId == userId then [todos[0]] else []) + OwnedBy(todos[1..], userId)
  }

  /** The caller's list holds every todo the caller owns and nothing else. */
  lemma {:induction false} OwnedByMembers(todos: seq<Todo>, userId: string)
    ensures forall t :: t in OwnedBy(todos, userId) <==> t in todos && t.userId == userId
  {
    if todos != [] {
      OwnedByMembers(todos[1..], userId);
      assert todos == [todos[0]] + todos[1..];
    }
  }

  /** Filtering distributes over concatenation, so it keeps the order of the list. */
  lemma {:induction false} OwnedByAppend(a: seq<Todo>, b: seq<Todo>, userId: string)
    ensures OwnedBy(a + b, userId) == OwnedBy(a, userId) + OwnedBy(b, userId)
  {
    if a == [] {
      assert a + b == b;
    } else {
      var head := if a[0].userId == userId then [a[0]] else [];
      var x, y := OwnedBy(a[1..], userId), OwnedBy(b, userId);
      calc {
        OwnedBy(a + b, userId);
        == { assert (a + b)[0] == a[0] && (a + b)[1..] == a[1..] + b; }
        head + OwnedBy(a[1..] + b, userId);
        == { OwnedByAppend(a[1..], b, userId); }
        head + (x + y);
        == { assert head + (x + y) == (head + x) + y; }
        (head + x) + y;
        OwnedBy(a, userId) + y;
      }
    }
  }

  lemma OwnedBySplit(s: seq<Todo>, i: nat, userId: string)
    requires i < |s|
    ensures OwnedBy(s, userId) == OwnedBy(s[..i], userId) + OwnedBy([s[i]], userId) + OwnedBy(s[i + 1..], userId)
  {
    assert s == s[..i] + [s[i]] + s[i + 1..];
    OwnedByAppend(s[..i] + [s[i]], s[i + 1..], userId);
    OwnedByAppend(s[..i], [s[i]], userId);
  }

  /** Replacing a todo of one owner by another of the same owner leaves every
      other user's list as it was. */
  lemma OwnedByReplace(s: seq<Todo>, i: nat, t: Todo, userId: string)
    requires i < |s| && s[i].userId == t.userId && t.userId != userId
    ensures OwnedBy(s[i := t], userId) == OwnedBy(s, userId)
  {
    OwnedBySplit(s, i, userId);
    OwnedBySplit(s[i := t], i, userId);
    assert s[i := t][..i] == s[..i] && s[i := t][i + 1..] == s[i + 1..];
  }

  /** Removing a todo leaves every other user's list as it was. */
  lemma OwnedByRemove(s: seq<Todo>, i: nat, userId: string)
    requires i < |s| && s[i].userId != userId
    ensures OwnedBy(s[..i] + s[i + 1..], userId) == OwnedBy(s, userId)
  {
    OwnedBySplit(s, i, userId);
    OwnedByAppend(s[..i], s[i + 1..], userId);
  }

  /** Appending a todo leaves every other user's list as it was. */
  lemma OwnedByAppendOther(s: seq<Todo>, t: Todo, userId: string)
    requires t.userId != userId
    ensures OwnedBy(s + [t], userId) == OwnedBy(s, userId)
  {
    OwnedByAppend(s, [t], userId);
  }

  predicate Owns(t: Todo, id: string, caller: string) {
    t.id == id && t.userId == caller
  }

  /** The position of the caller's todo with this id: the lookup both
      `find` and `findIndex` perform. */
  function FindOwned(todos: seq<Todo>, id: string, caller: string): (r: Option<nat>)
    ensures r.Some? ==> r.value < |todos| && Owns(todos[r.value], id, caller)
    ensures r.None? <==> forall t :: t in todos ==> !Owns(t, id, caller)
  {
    FindIndex(todos, (t: Todo) => Owns(t, id, caller))
  }

  /** With unique ids, a todo is found for the caller exactly when the caller
      owns it; someone else's todo is not found at all. */
  lemma FindOwnedById(todos: seq<Todo>, id: string, caller: string, k: nat)
    requires UniqueIds(todos) && k < |todos| && todos[k].id == id
    ensures FindOwned(todos, id, caller) == if todos[k].userId == caller then Some(k) else None
  {
    if todos[k].userId == caller {
      FindUnique(todos, (t: Todo) => Owns(t, id, caller), k);
    }
  }

  /** Another user's todo is invisible: updating or deleting it by id is
      answered like an id that does not exist. */
  lemma ForeignTodoIsNotFound(todos: seq<Todo>, k: nat, caller: string)
    requires UniqueIds(todos) && k < |todos| && todos[k].userId != caller
    ensures FindOwned(todos, todos[k].id, caller) == None
    ensures todos[k] !in OwnedBy(todos, caller)
  {
    FindOwnedById(todos, todos[k].id, caller, k);
    OwnedByMembers(todos, caller);
  }

  /** `todo-` followed by the first eight characters of a generated UUID. */
  function NewTodoId(uuid: string): (id: string)
    ensures "todo-" <= id && id[5..] <= uuid
    ensures |id| == 5 + (if |uuid| < 8 then |uuid| else 8)
  {
    "todo-" + (if |uuid| <= 8 then uuid else uuid[..8])
  }

  /** The fields an update request provides; `None` is a field not given. */
  datatype Patch = Patch(title: Option<string>, completed: Option<bool>)

  /** A patch never changes a todo's id or owner; each field it provides
      replaces the old one, and each it omits is kept. */
  function Patched(t: Todo, patch: Patch): (r: Todo)
    ensures r.id == t.id && r.userId == t.userId
    ensures patch.title.Some? ==> r.title == patch.title.value
    ensures patch.title.None? ==> r.title == t.title
    ensures patch.completed.Some? ==> r.completed == patch.completed.value
    ensures patch.completed.None? ==> r.completed == t.completed
  {
    t.(title := if patch.title.Some? then patch.title.value else t.title,
       completed := if patch.completed.Some? then patch.completed.value else t.completed)
  }

  /** Answers of create (201 with the todo, or 400 "Title is required"). */
  datatype CreateResult = Created(todo: Todo) | TitleRequired

  /** Answers of update and delete (the todo, or 404 "Todo not found"). */
  datatype ChangeResult = Found(todo: Todo) | NotFound

  lemma UniqueIdsAppend(s: seq<Todo>, t: Todo)
    requires UniqueIds(s) && forall u :: u in s ==> u.id != t.id
    ensures UniqueIds(s + [t])
  {
    var s' := s + [t];
    forall i, j | 0 <= i < |s'| && 0 <= j < |s'| && s'[i].id == s'[j].id ensures i == j {
    }
  }

  lemma UniqueIdsRemove(s: seq<Todo>, i: nat)
    requires UniqueIds(s) && i < |s|
    ensures UniqueIds(s[..i] + s[i + 1..])
  {
    var s' := s[..i] + s[i + 1..];
    forall a, b | 0 <= a < |s'| && 0 <= b < |s'| && s'[a].id == s'[b].id ensures a == b {
      var a', b' := if a < i then a else a + 1, if b < i then b else b + 1;
      assert s'[a] == s[a'] && s'[b] == s[b'];
    }
  }

  class TodoStore {
    var todos: seq<Todo>

    /** Ids are unique: the server never issues an id that is in use. */
    ghost predicate Valid()
      reads this
    {
      UniqueIds(todos)
    }

    constructor ()
      ensures Valid() && todos == SeedTodos
    {
      todos := SeedTodos;
    }

    /** `GET /api/todos`: exactly the caller's todos, in list order. */
    method List(caller: string) returns (r: seq<Todo>)
      ensures r == OwnedBy(todos, caller)
      ensures forall t :: t in r ==> t.userId == caller
    {
      r := OwnedBy(todos, caller);
      OwnedByMembers(todos, caller);
    }

    /** `POST /api/todos`: a missing or empty title is refused; otherwise a new,
        not yet completed todo of the caller is appended under a fresh id. */
    method Create(caller: string, uuid: string, title: Option<string>) returns (r: CreateResult)
      requires Valid()
      requires forall t :: t in todos ==> t.id != NewTodoId(uuid)
      modifies this
      ensures Valid()
      ensures r.TitleRequired? <==> !Truthy(title)
      ensures r.TitleRequired? ==> todos == old(todos)
      ensures r.Created? ==> r.todo == Todo(NewTodoId(uuid), title.value, false, caller) &&
                             todos == old(todos) + [r.todo]
      ensures forall u :: u != caller ==> OwnedBy(todos, u) == OwnedBy(old(todos), u)
    {
      if !Truthy(title) {
        return TitleRequired;
      }
      var todo := Todo(NewTodoId(uuid), title.value, false, caller);
      UniqueIdsAppend(todos, todo);
      forall u | u != caller ensures OwnedBy(todos + [todo], u) == OwnedBy(todos, u) {
        OwnedByAppendOther(todos, todo, u);
      }
      todos := todos + [todo];
      r := Created(todo);
    }

    /** `PUT /api/todos/:id`: the caller's todo with this id gets the fields
        the request provides (an empty title included); nothing else changes. */
    method Update(caller: string, id: string, patch: Patch) returns (r: ChangeResult)
      requires Valid()
      modifies this
      ensures Valid()
      ensures FindOwned(old(todos), id, caller).None? ==> r == NotFound && todos == old(todos)
      ensures FindOwned(old(todos), id, caller).Some? ==>
                var i := FindOwned(old(todos), id, caller).value;
                r == Found(Patched(old(todos)[i], patch)) && todos == old(todos)[i := r.todo]
      ensures forall u :: u != caller ==> OwnedBy(todos, u) == OwnedBy(old(todos), u)
      ensures forall k :: 0 <= k < |old(todos)| && old(todos)[k].id == id ==>
                (r.Found? <==> old(todos)[k].userId == caller)
    {
      forall k | 0 <= k < |todos| && todos[k].id == id
        ensures FindOwned(todos, id, caller).Some? <==> todos[k].userId == caller
      {
        FindOwnedById(todos, id, caller, k);
      }
      var found := FindOwned(todos, id, caller);
      if found.None? {
        return NotFound;
      }
      var i := found.value;
      var todo := Patched(todos[i], patch);
      forall u | u != caller ensures OwnedBy(todos[i := todo], u) == OwnedBy(todos, u) {
        OwnedByReplace(todos, i, todo, u);
      }
      todos := todos[i := todo];
      r := Found(todo);
    }

    /** `DELETE /api/todos/:id`: the caller's todo with this id is removed and
        returned; nothing else changes. */
    method Delete(caller: string, id: string) returns (r: ChangeResult)
      requires Valid()
      modifies this
      ensures Valid()
      ensures FindOwned(old(todos), id, caller).None? ==> r == NotFound && todos == old(todos)
      ensures FindOwned(old(todos), id, caller).Some? ==>
                var i := FindOwned(old(todos), id, caller).value;
                r == Found(old(todos)[i]) && todos == old(todos)[..i] + old(todos)[i + 1..]
      ensures forall u :: u != caller ==> OwnedBy(todos, u) == OwnedBy(old(todos), u)
      ensures forall k :: 0 <= k < |old(todos)| && old(todos)[k].id == id ==>
                (r.Found? <==> old(todos)[k].userId == caller)
    {
      forall k | 0 <= k < |todos| && todos[k].id == id
        ensures FindOwned(todos, id, caller).Some? <==> todos[k].userId == caller
      {
        FindOwnedById(todos, id, caller, k);
      }
      var found := FindOwned(todos, id, caller);
      if found.None? {
        return NotFound;
      }
      var i := found.value;
      UniqueIdsRemove(todos, i);
      forall u | u != caller ensures OwnedBy(todos[..i] + todos[i + 1..], u) == OwnedBy(todos, u) {
        OwnedByRemove(todos, i, u);
      }
      r := Found(todos[i]);
      todos := todos[..i] + todos[i + 1..];
    }
  }
}
