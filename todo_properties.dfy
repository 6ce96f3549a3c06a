/**
 What the todo store promises, proved about the functions of module TodoSpec:
 the store invariant is kept by every operation, IDs are handed out as
 0, 1, 2, ... and never reused, reads see what writes stored, updates and
 deletes touch only what they name, and pages tile the creation order.
 */
module TodoProperties {
  import opened TodoSpec

  // ---------------------------------------------------------------- sequences

  /** A strictly increasing sequence holds no value twice. */
  lemma IncreasingDistinct(s: seq<nat>, i: nat, j: nat)
    requires Increasing(s) && i < |s| && j < |s| && i != j
    ensures s[i] != s[j]
  {
  }

  /** Removing one element keeps the others, and their order. */
  lemma RemoveAtIndex(s: seq<nat>, p: nat)
    requires p < |s|
    ensures |RemoveAt(s, p)| == |s| - 1
    ensures forall k :: 0 <= k < |s| - 1 ==> RemoveAt(s, p)[k] == s[if k < p then k else k + 1]
  {
  }

  /** Putting the removed element back where it was gives the original. */
  lemma RemoveAtSplit(s: seq<nat>, p: nat)
    requires p < |s|
    ensures s == RemoveAt(s, p)[..p] + [s[p]] + RemoveAt(s, p)[p..]
  {
    var r := RemoveAt(s, p);
    assert r[..p] == s[..p];
    assert r[p..] == s[p + 1..];
    assert s == s[..p] + [s[p]] + s[p + 1..];
  }

  /** `filter_map` distributes over concatenation. */
  lemma {:induction false} ResolveAppend(table: map<nat, Todo>, a: seq<nat>, b: seq<nat>)
    ensures Resolve(table, a + b) == Resolve(table, a) + Resolve(table, b)
  {
    if a == [] {
      assert a + b == b;
    } else {
      assert (a + b)[1..] == a[1..] + b;
      ResolveAppend(table, a[1..], b);
    }
  }

  /** `Range(lo, hi)` is lo, lo + 1, ..., hi - 1. */
  lemma {:induction false} RangeShape(lo: nat, hi: nat)
    requires lo <= hi
    ensures |Range(lo, hi)| == hi - lo
    ensures forall k :: 0 <= k < hi - lo ==> Range(lo, hi)[k] == lo + k
    decreases hi - lo
  {
    if lo < hi {
      RangeShape(lo + 1, hi);
    }
  }

  // ---------------------------------------------------------------- create_todo

  /** create_todo replies with the counter's old value, bumps the counter by
      exactly one, stores a fresh incomplete record under the new ID, appends
      the ID at the end of the order, and keeps the invariant. Under the
      invariant the new ID was not yet in use. */
  lemma CreateTodoSpec(st: Store, name: string, description: string)
    requires Valid(st)
    ensures var s := CreateTodo(st, name, description);
      && s.result == Ok(st.nextId)
      && s.next.nextId == st.nextId + 1
      && st.nextId !in st.table
      && s.next.table == st.table[st.nextId := Todo(name, description, false)]
      && s.next.order == st.order + [st.nextId]
      && Valid(s.next)
  {
    var s := CreateTodo(st, name, description);
    assert forall i :: 0 <= i < |st.order| ==> st.order[i] != st.nextId;
    assert st.nextId !in st.order;
    forall id ensures id in s.next.table <==> id in s.next.order {
      assert id in s.next.order <==> id in st.order || id == st.nextId;
    }
  }

  /** get_todo right after create_todo returns exactly the stored record; the
      other IDs read as before. */
  lemma CreateThenGet(st: Store, name: string, description: string, other: nat)
    ensures var s := CreateTodo(st, name, description);
      && GetTodo(s.next, s.result.value) == Ok(Todo(name, description, false))
      && (other != st.nextId ==> GetTodo(s.next, other) == GetTodo(st, other))
  {
  }

  // ---------------------------------------------------------------- get_todo

  /** Under the invariant get_todo succeeds exactly for the IDs in the order,
      and fails for every ID the counter has not yet handed out. */
  lemma GetTodoSpec(st: Store, id: nat)
    requires Valid(st)
    ensures GetTodo(st, id).Ok? <==> id in st.order
    ensures GetTodo(st, id).Ok? ==> GetTodo(st, id).value == st.table[id]
    ensures id >= st.nextId ==> GetTodo(st, id) == Err(NotFound)
  {
    if id >= st.nextId {
      assert forall i :: 0 <= i < |st.order| ==> st.order[i] != id;
    }
  }

  // ---------------------------------------------------------------- get_todos

  /** Under the invariant a page holds one record per ID of
      `order[start..end]`, in that order: the skip in `filter_map` never fires. */
  lemma GetTodosSpec(st: Store, page: nat, pageSize: Option<nat>)
    requires Valid(st)
    ensures var ps := pageSize.GetOr(DefaultPageSize);
      var start := PageStart(page, ps);
      var end := Min(start + ps, |st.order|);
      var r := GetTodos(st, page, pageSize);
      r.Ok? ==> |r.value| == end - start &&
                forall k :: 0 <= k < |r.value| ==> r.value[k] == st.table[st.order[start + k]]
  {
    var ps := pageSize.GetOr(DefaultPageSize);
    var start := PageStart(page, ps);
    if start <= |st.order| {
      PageSpec(st, start, ps);
      GetTodosIsPage(st, page, pageSize);
    }
  }

  /** In range, the reply is the page from the page's start. */
  lemma GetTodosIsPage(st: Store, page: nat, pageSize: Option<nat>)
    requires PageStart(page, pageSize.GetOr(DefaultPageSize)) <= |st.order|
    ensures var ps := pageSize.GetOr(DefaultPageSize);
      GetTodos(st, page, pageSize) == Ok(Page(st, PageStart(page, ps), ps))
  {
  }

  /** Under the invariant the page starting at `start` holds the records of
      the next (up to) `ps` IDs of the order. */
  lemma PageSpec(st: Store, start: nat, ps: nat)
    requires Valid(st) && start <= |st.order|
    ensures var r := Page(st, start, ps);
      |r| == Min(start + ps, |st.order|) - start &&
      forall k :: 0 <= k < |r| ==> r[k] == st.table[st.order[start + k]]
  {
    SliceResolved(st, start, Min(start + ps, |st.order|));
  }

  /** Under the invariant every ID of a slice of the order resolves to a record. */
  lemma SliceResolved(st: Store, lo: nat, hi: nat)
    requires Valid(st) && lo <= hi <= |st.order|
    ensures var r := Resolve(st.table, st.order[lo..hi]);
      |r| == hi - lo && forall k :: 0 <= k < |r| ==> r[k] == st.table[st.order[lo + k]]
  {
    var ids := st.order[lo..hi];
    forall k | 0 <= k < |ids| ensures ids[k] in st.table {
      assert ids[k] == st.order[lo + k];
    }
  }

  /** Page 0 is page 1, since `page - 1` saturates. */
  lemma PageZeroIsPageOne(st: Store, pageSize: Option<nat>)
    ensures GetTodos(st, 0, pageSize) == GetTodos(st, 1, pageSize)
  {
  }

  /** No page size means pages of ten. */
  lemma DefaultPageIsTen(st: Store, page: nat)
    ensures GetTodos(st, page, None) == GetTodos(st, page, Some(10))
  {
  }

  /** A page size of zero gives an empty page, whatever the page number. */
  lemma ZeroPageSizeIsEmpty(st: Store, page: nat)
    ensures GetTodos(st, page, Some(0)) == Ok([])
  {
  }

  /** From page 1 on, each page starts exactly one page size after the
      previous one. */
  lemma PageStartStep(page: nat, ps: nat)
    requires page >= 1
    ensures PageStart(page + 1, ps) == PageStart(page, ps) + ps
  {
    assert page * ps == (page - 1) * ps + ps;
  }

  /** Pages 1 to `k` of size `ps`, one after the other. Every one of them is
      in range once page `k` is. */
  function PagesUpTo(st: Store, ps: nat, k: nat): seq<Todo>
    requires k == 0 || PageStart(k, ps) <= |st.order|
  {
    if k == 0 then [] else PagesUpTo(st, ps, k - 1) + GetTodos(st, k, Some(ps)).value
  }

  /** Reading pages 1 to `k` in turn yields the records of the IDs before the
      start of page `k + 1` (the first `k * ps` of the order, or all of them),
      each once and in creation order: consecutive pages neither overlap nor
      leave a gap. */
  lemma {:induction false} PagesCover(st: Store, ps: nat, k: nat)
    requires k == 0 || PageStart(k, ps) <= |st.order|
    ensures PagesUpTo(st, ps, k) == Resolve(st.table, st.order[..Min(PageStart(k + 1, ps), |st.order|)])
  {
    if k > 0 {
      var lo := PageStart(k, ps);
      var hi := Min(lo + ps, |st.order|);
      PageStartStep(k, ps);
      PagesUpToStep(st, ps, k);
      if k > 1 {
        PageStartStep(k - 1, ps);
        PagesCover(st, ps, k - 1);
      } else {
        assert st.order[..lo] == [];
      }
      ResolveSlices(st.table, st.order, lo, hi);
    }
  }

  /** Page `k` appended to the pages before it. */
  lemma PagesUpToStep(st: Store, ps: nat, k: nat)
    requires k >= 1 && PageStart(k, ps) <= |st.order|
    ensures PagesUpTo(st, ps, k) == PagesUpTo(st, ps, k - 1) + Page(st, PageStart(k, ps), ps)
  {
    assert GetTodos(st, k, Some(ps)) == Ok(Page(st, PageStart(k, ps), ps));
  }

  /** Resolving a prefix splits at any point inside it. */
  lemma ResolveSlices(table: map<nat, Todo>, s: seq<nat>, lo: nat, hi: nat)
    requires lo <= hi <= |s|
    ensures Resolve(table, s[..hi]) == Resolve(table, s[..lo]) + Resolve(table, s[lo..hi])
  {
    assert s[..hi] == s[..lo] + s[lo..hi];
    ResolveAppend(table, s[..lo], s[lo..hi]);
  }

  /** The pagination scenario: with 25 records and pages of 10, pages 1, 2 and
      3 hold 10, 10 and 5 records; page 4 starts past the end, where the slice
      traps. */
  lemma TwentyFiveRecordsInPagesOfTen(st: Store)
    requires Valid(st) && |st.order| == 25
    ensures |GetTodos(st, 1, Some(10)).value| == 10
    ensures |GetTodos(st, 2, Some(10)).value| == 10
    ensures |GetTodos(st, 3, Some(10)).value| == 5
    ensures GetTodos(st, 4, Some(10)) == Err(PageOutOfRange)
  {
    GetTodosSpec(st, 1, Some(10));
    GetTodosSpec(st, 2, Some(10));
    GetTodosSpec(st, 3, Some(10));
  }

  /** Together, pages 1, 2 and 3 of size 10 over 25 records hold every
      record once, in creation order. */
  lemma TwentyFiveRecordsAllListed(st: Store)
    requires Valid(st) && |st.order| == 25
    ensures var all := GetTodos(st, 1, Some(10)).value + GetTodos(st, 2, Some(10)).value
                     + GetTodos(st, 3, Some(10)).value;
      |all| == 25 && forall k :: 0 <= k < 25 ==> all[k] == st.table[st.order[k]]
  {
    PagesCover(st, 10, 3);
    assert PagesUpTo(st, 10, 3) == GetTodos(st, 1, Some(10)).value + GetTodos(st, 2, Some(10)).value
                                 + GetTodos(st, 3, Some(10)).value;
    assert st.order[..25] == st.order;
    assert forall k :: 0 <= k < 25 ==> st.order[k] in st.table;
  }

  // ---------------------------------------------------------------- update_todo

  /** update_todo on an ID missing from the order fails and changes nothing. */
  lemma UpdateTodoUnlisted(st: Store, id: nat, name: Option<string>, description: Option<string>,
                           isCompleted: Option<bool>)
    requires id !in st.order
    ensures UpdateTodo(st, id, name, description, isCompleted) == Step(st, Err(NotFound))
  {
  }

  /** Under the invariant, update_todo on a listed ID replies `Ok(true)`,
      overwrites exactly the given fields of that record, and leaves the other
      fields, the other records, the order and the counter alone; the
      "not found in the store" error cannot occur, and the invariant is kept. */
  lemma UpdateTodoSpec(st: Store, id: nat, name: Option<string>, description: Option<string>,
                       isCompleted: Option<bool>)
    requires Valid(st)
    ensures var s := UpdateTodo(st, id, name, description, isCompleted);
      && Valid(s.next)
      && s.result != Err(NotFoundInStore)
      && (id !in st.order ==> s == Step(st, Err(NotFound)))
      && (id in st.order ==>
            && s.result == Ok(true)
            && s.next.order == st.order
            && s.next.nextId == st.nextId
            && s.next.table.Keys == st.table.Keys
            && (forall other :: other in st.table && other != id ==> s.next.table[other] == st.table[other])
            && s.next.table[id].name == (if name.Some? then name.value else st.table[id].name)
            && s.next.table[id].description == (if description.Some? then description.value else st.table[id].description)
            && s.next.table[id].isCompleted == (if isCompleted.Some? then isCompleted.value else st.table[id].isCompleted))
  {
  }

  /** Setting only the completion flag keeps name and description. */
  lemma CompleteKeepsText(st: Store, id: nat, done: bool)
    requires Valid(st) && id in st.order
    ensures var s := UpdateTodo(st, id, None, None, Some(done));
      GetTodo(s.next, id) == Ok(Todo(st.table[id].name, st.table[id].description, done))
  {
    UpdateTodoSpec(st, id, None, None, Some(done));
  }

  // ---------------------------------------------------------------- delete_todo

  /** delete_todo on an ID that is not a key of the table fails and changes nothing. */
  lemma DeleteTodoAbsent(st: Store, id: nat)
    requires id !in st.table
    ensures DeleteTodo(st, id) == Step(st, Err(NotFound))
  {
  }

  /** Removing an element from a strictly increasing sequence leaves it
      strictly increasing. */
  lemma RemoveAtIncreasing(s: seq<nat>, p: nat)
    requires Increasing(s) && p < |s|
    ensures Increasing(RemoveAt(s, p))
  {
    var r := RemoveAt(s, p);
    RemoveAtIndex(s, p);
    forall a, b | 0 <= a < b < |r| ensures r[a] < r[b] {
      var ja := if a < p then a else a + 1;
      var jb := if b < p then b else b + 1;
      assert r[a] == s[ja] && r[b] == s[jb];
    }
  }

  /** Removing the element at `p` from a sequence without repeats leaves
      every other element and drops `s[p]`. */
  lemma RemoveAtMembers(s: seq<nat>, p: nat, x: nat)
    requires Increasing(s) && p < |s|
    ensures x in RemoveAt(s, p) <==> x in s && x != s[p]
  {
    var r := RemoveAt(s, p);
    RemoveAtIndex(s, p);
    if x in r {
      var k :| 0 <= k < |r| && r[k] == x;
      var j := if k < p then k else k + 1;
      assert s[j] == x;
      IncreasingDistinct(s, j, p);
    }
    if x in s && x != s[p] {
      var j :| 0 <= j < |s| && s[j] == x;
      var k := if j < p then j else j - 1;
      assert r[k] == x;
    }
  }

  /** Under the invariant, deleting a stored ID replies `Ok(true)` (never
      `Ok(false)`), drops it from the table and from the order, keeps the other
      IDs in their relative order and the counter as it was, keeps the
      invariant, and afterwards get_todo on that ID fails. */
  lemma DeleteTodoSpec(st: Store, id: nat)
    requires Valid(st) && id in st.table
    ensures var s := DeleteTodo(st, id);
      && s.result == Ok(true)
      && s.next.table == st.table - {id}
      && s.next.nextId == st.nextId
      && id !in s.next.order
      && |s.next.order| == |st.order| - 1
      && (exists pos :: 0 <= pos <= |s.next.order| &&
            st.order == s.next.order[..pos] + [id] + s.next.order[pos..])
      && GetTodo(s.next, id) == Err(NotFound)
      && Valid(s.next)
  {
    var pos := IndexFrom(st.order, id, 0).value;
    var order := RemoveAt(st.order, pos);
    RemoveAtIndex(st.order, pos);
    RemoveAtSplit(st.order, pos);
    RemoveAtMembers(st.order, pos, id);
    RemoveKeepsValid(st, pos);
    assert DeleteTodo(st, id) == Step(Store(st.table - {id}, order, st.nextId), Ok(true));
  }

  /** Dropping the ID at `pos` of the order from both the order and the table
      keeps the invariant. */
  lemma RemoveKeepsValid(st: Store, pos: nat)
    requires Valid(st) && pos < |st.order|
    ensures Valid(Store(st.table - {st.order[pos]}, RemoveAt(st.order, pos), st.nextId))
  {
    var id := st.order[pos];
    var r := RemoveAt(st.order, pos);
    RemoveAtIndex(st.order, pos);
    RemoveAtIncreasing(st.order, pos);
    forall k | 0 <= k < |r| ensures r[k] in st.table - {id} && r[k] < st.nextId {
      var j := if k < pos then k else k + 1;
      assert r[k] == st.order[j];
      IncreasingDistinct(st.order, j, pos);
    }
    forall x | x in st.table - {id} ensures x in r {
      RemoveAtMembers(st.order, pos, x);
    }
  }

  // ---------------------------------------------------------------- histories

  /** Every state-changing call keeps the invariant. */
  lemma ApplyKeepsValid(st: Store, req: Request)
    requires Valid(st)
    ensures Valid(Apply(st, req))
  {
    match req
    case CreateRequest(n, d) => CreateTodoSpec(st, n, d);
    case UpdateRequest(id, n, d, c) => UpdateTodoSpec(st, id, n, d, c);
    case DeleteRequest(id) =>
      if id in st.table { DeleteTodoSpec(st, id); }
  }

  /** Any sequence of calls keeps the invariant. */
  lemma {:induction false} RunKeepsValid(st: Store, reqs: seq<Request>)
    requires Valid(st)
    ensures Valid(Run(st, reqs))
    decreases |reqs|
  {
    if reqs != [] {
      ApplyKeepsValid(st, reqs[0]);
      RunKeepsValid(Apply(st, reqs[0]), reqs[1..]);
    }
  }

  /** The creates in any sequence of calls return consecutive IDs starting at
      the counter: updates and deletes neither consume nor release an ID. */
  lemma {:induction false} IssuedConsecutive(st: Store, reqs: seq<Request>)
    ensures st.nextId <= Run(st, reqs).nextId
    ensures Issued(st, reqs) == Range(st.nextId, Run(st, reqs).nextId)
    decreases |reqs|
  {
    if reqs != [] {
      var st' := Apply(st, reqs[0]);
      IssuedConsecutive(st', reqs[1..]);
      if !reqs[0].CreateRequest? {
        assert st'.nextId == st.nextId;
      }
    }
  }

  /** Starting from the empty store the creates return 0, 1, 2, ... in
      strictly increasing order; no ID is returned twice. */
  lemma IssuedFromEmpty(reqs: seq<Request>)
    ensures var ids := Issued(Empty(), reqs);
      && (forall k :: 0 <= k < |ids| ==> ids[k] == k)
      && Increasing(ids)
  {
    IssuedConsecutive(Empty(), reqs);
    RangeShape(0, Run(Empty(), reqs).nextId);
  }

  /** An ID already handed out, whether its record still exists or has been
      deleted, is never handed out again. */
  lemma NeverReissued(st: Store, reqs: seq<Request>, id: nat)
    requires id < st.nextId
    ensures id !in Issued(st, reqs)
  {
    IssuedConsecutive(st, reqs);
    RangeShape(st.nextId, Run(st, reqs).nextId);
  }
}
