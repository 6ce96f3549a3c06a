/**
 The todo store of the backend canister, as values.

 The three pieces of process-wide state (the record table, the creation-order
 index and the ID counter) are gathered into one `Store` value, and each of the
 five operations is a function from the store before the call to the store after
 it and the reply the caller receives. The class in module TodoBackend is proved
 to change its fields exactly as these functions say; module TodoProperties
 proves what the operations promise.
 */
module TodoSpec {

  datatype Option<T> = None | Some(value: T) {
    /** The carried value, or `default` when there is none (Rust's `unwrap_or`). */
    function GetOr(default: T): T {
      match this
      case Some(v) => v
      case None => default
    }
  }

  /** Error kinds; the source reports them as text. */
  datatype Error =
    | NotFound         // the ID is not a key of the table (or, for update, not in the order)
    | NotFoundInStore  // update: the ID is in the order but not in the table
    | PageOutOfRange   // list: the slice of the order is out of bounds, which traps

  datatype Result<T> = Ok(value: T) | Err(error: Error)

  /** One todo record; its ID is the key it is stored under, not a field. */
  datatype Todo = Todo(name: string, description: string, isCompleted: bool)

  /** Page size used by `GetTodos` when the caller gives none. */
  const DefaultPageSize: nat := 10

  /** The record table, the creation-order index and the next ID to hand out. */
  datatype Store = Store(table: map<nat, Todo>, order: seq<nat>, nextId: nat)

  /** The store after an operation, and the operation's reply. */
  datatype Step<T> = Step(next: Store, result: Result<T>)

  /** The state at process start. */
  function Empty(): Store {
    Store(map[], [], 0)
  }

  predicate Increasing(s: seq<nat>) {
    forall i, j :: 0 <= i < j < |s| ==> s[i] < s[j]
  }

  /** The store invariant: the order lists exactly the keys of the table, in
      strictly increasing (hence creation) order, and every ID is below the counter. */
  ghost predicate Valid(st: Store) {
    && (forall i :: 0 <= i < |st.order| ==> st.order[i] in st.table)
    && (forall id :: id in st.table ==> id in st.order)
    && Increasing(st.order)
    && (forall i :: 0 <= i < |st.order| ==> st.order[i] < st.nextId)
  }

  // ---------------------------------------------------------------- create_todo

  /** Hands out the counter's value as the new ID, stores a fresh record under
      it and appends the ID to the order. Always succeeds. */
  function CreateTodo(st: Store, name: string, description: string): Step<nat> {
    var id := st.nextId;
    Step(Store(st.table[id := Todo(name, description, false)], st.order + [id], id + 1), Ok(id))
  }

  // ---------------------------------------------------------------- get_todo

  /** Looks the ID up in the table. */
  function GetTodo(st: Store, id: nat): Result<Todo> {
    if id in st.table then Ok(st.table[id]) else Err(NotFound)
  }

  // ---------------------------------------------------------------- get_todos

  /** First index of a 1-based page, `(page - 1) * pageSize` with `page - 1`
      saturating at zero. */
  function PageStart(page: nat, pageSize: nat): nat {
    (if page == 0 then 0 else page - 1) * pageSize
  }

  function Min(a: nat, b: nat): nat {
    if a <= b then a else b
  }

  /** The records stored under `ids`, in the order of `ids`, skipping any ID
      that is not a key of the table. */
  function Resolve(table: map<nat, Todo>, ids: seq<nat>): (r: seq<Todo>)
    ensures |r| <= |ids|
    ensures (forall k :: 0 <= k < |ids| ==> ids[k] in table) ==>
              |r| == |ids| && forall k :: 0 <= k < |r| ==> r[k] == table[ids[k]]
  {
    if ids == [] then []
    else if ids[0] in table then [table[ids[0]]] + Resolve(table, ids[1..])
    else Resolve(table, ids[1..])
  }

  /** The records of `order[start..end]` with `end` the page's end clipped
      to the length of the order. */
  function Page(st: Store, start: nat, ps: nat): (r: seq<Todo>)
    requires start <= |st.order|
    ensures |r| <= ps
  {
    Resolve(st.table, st.order[start..Min(start + ps, |st.order|)])
  }

  /** One page of records in creation order. The slice `order[start..end]`
      traps when `start` lies past the end of the order; that is `PageOutOfRange`. */
  function GetTodos(st: Store, page: nat, pageSize: Option<nat>): (r: Result<seq<Todo>>)
    ensures r.Ok? <==> PageStart(page, pageSize.GetOr(DefaultPageSize)) <= |st.order|
    ensures r.Err? ==> r.error == PageOutOfRange
    ensures r.Ok? ==> |r.value| <= pageSize.GetOr(DefaultPageSize)
  {
    var ps := pageSize.GetOr(DefaultPageSize);
    var start := PageStart(page, ps);
    var end := Min(start + ps, |st.order|);
    if start <= end then Ok(Page(st, start, ps))
    else Err(PageOutOfRange)
  }

  // ---------------------------------------------------------------- update_todo

  /** The record with each given field overwritten. */
  function Patch(t: Todo, name: Option<string>, description: Option<string>, isCompleted: Option<bool>): Todo {
    Todo(name.GetOr(t.name), description.GetOr(t.description), isCompleted.GetOr(t.isCompleted))
  }

  /** Checks the ID against the order, then patches the record in the table. */
  function UpdateTodo(st: Store, id: nat, name: Option<string>, description: Option<string>,
                      isCompleted: Option<bool>): Step<bool>
  {
    if id !in st.order then Step(st, Err(NotFound))
    else if id in st.table then
      Step(st.(table := st.table[id := Patch(st.table[id], name, description, isCompleted)]), Ok(true))
    else Step(st, Err(NotFoundInStore))
  }

  // ---------------------------------------------------------------- delete_todo

  /** The first index at or after `i` where `s` holds `x` (Rust's `position`). */
  function IndexFrom(s: seq<nat>, x: nat, i: nat): (r: Option<nat>)
    requires i <= |s|
    decreases |s| - i
    ensures r.Some? ==> i <= r.value < |s| && s[r.value] == x &&
                        forall k :: i <= k < r.value ==> s[k] != x
    ensures r.None? <==> forall k :: i <= k < |s| ==> s[k] != x
  {
    if i == |s| then None
    else if s[i] == x then Some(i)
    else IndexFrom(s, x, i + 1)
  }

  /** `s` without its element at `p` (Rust's `Vec::remove`). */
  function RemoveAt(s: seq<nat>, p: nat): seq<nat>
    requires p < |s|
  {
    s[..p] + s[p + 1..]
  }

  /** Removes the ID from the table; when it was there, removes its first
      occurrence from the order too, replying `false` if the order lacked it. */
  function DeleteTodo(st: Store, id: nat): Step<bool> {
    if id in st.table then
      var table := st.table - {id};
      match IndexFrom(st.order, id, 0)
      case Some(pos) => Step(Store(table, RemoveAt(st.order, pos), st.nextId), Ok(true))
      case None => Step(Store(table, st.order, st.nextId), Ok(false))
    else Step(st, Err(NotFound))
  }

  // ---------------------------------------------------------------- histories

  /** A state-changing call, for reasoning about sequences of calls. */
  datatype Request =
    | CreateRequest(name: string, description: string)
    | UpdateRequest(id: nat, newName: Option<string>, newDescription: Option<string>, newCompleted: Option<bool>)
    | DeleteRequest(id: nat)

  function Apply(st: Store, req: Request): Store {
    match req
    case CreateRequest(n, d) => CreateTodo(st, n, d).next
    case UpdateRequest(id, n, d, c) => UpdateTodo(st, id, n, d, c).next
    case DeleteRequest(id) => DeleteTodo(st, id).next
  }

  /** The store after the requests, one after the other. */
  function Run(st: Store, reqs: seq<Request>): Store
    decreases |reqs|
  {
    if reqs == [] then st else Run(Apply(st, reqs[0]), reqs[1..])
  }

  /** The IDs the create requests among `reqs` return, in call order. */
  function Issued(st: Store, reqs: seq<Request>): seq<nat>
    decreases |reqs|
  {
    if reqs == [] then []
    else
      var mine := match reqs[0]
        case CreateRequest(n, d) => [CreateTodo(st, n, d).result.value]
        case _ => [];
      mine + Issued(Apply(st, reqs[0]), reqs[1..])
  }

  /** The integers `lo`, `lo + 1`, ..., `hi - 1`. */
  function Range(lo: nat, hi: nat): seq<nat>
    decreases hi - lo
  {
    if lo >= hi then [] else [lo] + Range(lo + 1, hi)
  }
}
