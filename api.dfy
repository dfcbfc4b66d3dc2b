/** The `/api/todos` routes: the authentication gateway runs first, and a
    handler runs only for a resolved user id, acting as that user. */
module Api {
  import opened Js
  import opened Users
  import opened Auth
  import opened Todos

  /** What a request brings to the gateway: its `x-api-key` and `x-user-id`
      headers and the user its session resolved to. */
  datatype Request = Request(keyHeader: Option<string>, userHeader: Option<string>, sessionUser: Option<User>)

  /** The gateway with the key configured by the environment value `env`. */
  function Gate(env: Option<string>, req: Request): AuthResult {
    EnsureAuth(ConfiguredApiKey(env), req.keyHeader, req.userHeader, req.sessionUser)
  }

  /** A rejected request (401 with the gateway's reason and message), or the
      handler's answer. */
  datatype Reply<T> = Denied(error: AuthError, message: string) | Handled(value: T)

  /** `GET /api/todos`. */
  method ListTodos(store: TodoStore, env: Option<string>, req: Request) returns (r: Reply<seq<Todo>>)
    ensures r.Denied? <==> Gate(env, req).Unauthorized?
    ensures r.Denied? ==> r.error == Gate(env, req).error && r.message == ErrorMessage(r.error)
    ensures r.Handled? ==> r.value == OwnedBy(store.todos, Gate(env, req).userId)
    ensures r.Handled? ==> forall t :: t in r.value ==> t.userId == Gate(env, req).userId
  {
    match Gate(env, req)
    case Unauthorized(e) =>
      r := Denied(e, ErrorMessage(e));
    case Authorized(caller) =>
      var todos := store.List(caller);
      r := Handled(todos);
  }

  /** `POST /api/todos`. */
  method CreateTodo(store: TodoStore, env: Option<string>, req: Request, uuid: string, title: Option<string>)
    returns (r: Reply<CreateResult>)
    requires store.Valid()
    requires forall t :: t in store.todos ==> t.id != NewTodoId(uuid)
    modifies store
    ensures store.Valid()
    ensures r.Denied? <==> Gate(env, req).Unauthorized?
    ensures r.Denied? ==> r.error == Gate(env, req).error && r.message == ErrorMessage(r.error) && store.todos == old(store.todos)
    ensures r.Handled? ==> (r.value.TitleRequired? <==> !Truthy(title))
    ensures r.Handled? && r.value.TitleRequired? ==> store.todos == old(store.todos)
    ensures r.Handled? && r.value.Created? ==>
              r.value.todo == Todo(NewTodoId(uuid), title.value, false, Gate(env, req).userId) &&
              store.todos == old(store.todos) + [r.value.todo]
  {
    match Gate(env, req)
    case Unauthorized(e) =>
      r := Denied(e, ErrorMessage(e));
    case Authorized(caller) =>
      var created := store.Create(caller, uuid, title);
      r := Handled(created);
  }

  /** `PUT /api/todos/:id`. */
  method UpdateTodo(store: TodoStore, env: Option<string>, req: Request, id: string, patch: Patch)
    returns (r: Reply<ChangeResult>)
    requires store.Valid()
    modifies store
    ensures store.Valid()
    ensures r.Denied? <==> Gate(env, req).Unauthorized?
    ensures r.Denied? ==> r.error == Gate(env, req).error && r.message == ErrorMessage(r.error) && store.todos == old(store.todos)
    ensures r.Handled? ==>
              var found := FindOwned(old(store.todos), id, Gate(env, req).userId);
              (found.None? ==> r.value == NotFound && store.todos == old(store.todos)) &&
              (found.Some? ==> r.value == Found(Patched(old(store.todos)[found.value], patch)) &&
                               store.todos == old(store.todos)[found.value := r.value.todo])
    ensures r.Handled? ==>
              forall k :: 0 <= k < |old(store.todos)| && old(store.todos)[k].id == id ==>
                (r.value.Found? <==> old(store.todos)[k].userId == Gate(env, req).userId)
  {
    match Gate(env, req)
    case Unauthorized(e) =>
      r := Denied(e, ErrorMessage(e));
    case Authorized(caller) =>
      var changed := store.Update(caller, id, patch);
      r := Handled(changed);
  }

  /** `DELETE /api/todos/:id`. */
  method DeleteTodo(store: TodoStore, env: Option<string>, req: Request, id: string)
    returns (r: Reply<ChangeResult>)
    requires store.Valid()
    modifies store
    ensures store.Valid()
    ensures r.Denied? <==> Gate(env, req).Unauthorized?
    ensures r.Denied? ==> r.error == Gate(env, req).error && r.message == ErrorMessage(r.error) && store.todos == old(store.todos)
    ensures r.Handled? ==>
              var found := FindOwned(old(store.todos), id, Gate(env, req).userId);
              (found.None? ==> r.value == NotFound && store.todos == old(store.todos)) &&
              (found.Some? ==> r.value == Found(old(store.todos)[found.value]) &&
                               store.todos == old(store.todos)[..found.value] + old(store.todos)[found.value + 1..])
    ensures r.Handled? ==>
              forall k :: 0 <= k < |old(store.todos)| && old(store.todos)[k].id == id ==>
                (r.value.Found? <==> old(store.todos)[k].userId == Gate(env, req).userId)
  {
    match Gate(env, req)
    case Unauthorized(e) =>
      r := Denied(e, ErrorMessage(e));
    case Authorized(caller) =>
      var changed := store.Delete(caller, id);
      r := Handled(changed);
  }
}
