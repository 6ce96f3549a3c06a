# Todo backend canister: a verified model of its store

The backend keeps three pieces of process-wide state:
- a table from numeric IDs to todo records (name, description, completion flag);
- a list of IDs in creation order;
- a counter that hands out the next ID.

It offers five calls over that state: `create_todo`, `get_todo`, `get_todos`
(one page of records in creation order), `update_todo` and `delete_todo`.
This project models the store and the five calls and proves what they promise.

The files:
- `todo_spec.dfy`, module `TodoSpec`: the store as a value (`Store`) and each
  call as a function from the store before the call to the store after it and
  the reply (`Step`). The store invariant `Valid` says four things:
  - the order lists exactly the keys of the table;
  - it lists them in strictly increasing order;
  - it lists each key once;
  - every listed ID is below the counter.
- `todo_properties.dfy`, module `TodoProperties`: lemmas about those
  functions. They cover:
  - each call's reply and effect under the invariant;
  - that every call keeps the invariant;
  - that the defensive branches cannot be reached under the invariant. These
    are `update_todo`'s "not found in the store" and `delete_todo`'s `Ok(false)`;
  - paging: pages tile the order, page 0 is page 1, the default size is ten;
  - ID allocation over any sequence of calls: IDs are consecutive and never
    reused.
- `todo_backend.dfy`, module `TodoBackend`: the class `TodoStore`. Its fields
  `table`, `order` and `nextId` are the three pieces of state.
  - Its methods `CreateTodo`, `UpdateTodo` and `DeleteTodo` change the fields
    in place. Each is proved to produce exactly the `TodoSpec` function's step
    of the old state, and to keep the invariant.
  - The methods do not require the invariant, so the defensive branches are
    modelled as written.
  - `Position` is the front-to-back search `delete_todo` uses to find the ID
    in the order.
  - Four parameterless client methods replay the source's four unit tests
    against the class. The verifier checks each expected outcome:
    - `CreateAndGetScenario`: create, then read back;
    - `UpdateScenario`: update all three fields, then read back;
    - `PaginationScenario`: 25 records in pages of ten;
    - `DeleteScenario`: create and read back, delete, then read back again
      and search the order.
  - Two more client methods are extra scenarios not taken from the tests:
    - `TwoRecordsScenario`: for two records, the first page of size one holds
      the first;
    - `CompleteScenario`: completing a record keeps its text.

## How the model relates to the code

- IDs are `nat`. The record table is a `map<nat, Todo>` and the order is a
  `seq<nat>`.
- Error replies are the tags of `Error` rather than the source's strings:
  - `NotFound` stands for "Todo Invalid Id" (get) and "Todo not found"
    (update, delete);
  - `NotFoundInStore` stands for "Todo not found in the store".
- `get_todos` computes `start = (page - 1) * page_size`, where `page - 1`
  saturates at zero. It then computes `end = min(start + page_size, len)` and
  slices `order[start..end]`. When `start > end`, that slice panics and the
  call traps. The model returns `Err(PageOutOfRange)` for exactly those
  inputs, and `Ok` with the page otherwise.
- A page that starts past the end of the order is not an empty list. The
  slice at lines 72-74 of `lib.rs` panics and the call traps. Page 4 of 25
  records in pages of ten is one example.
- `Valid` writes "the order lists exactly the table's keys" as two inclusions:
  every listed ID is a key, and every key is listed.

## Model

| member | source | states |
|---|---|---|
| TodoProperties.CreateTodoSpec | src/todo_backend/src/lib.rs:30-51 | Under the invariant, create replies `Ok` with the counter's old value, and that ID was not in use. The counter goes up by exactly one. The table gains an incomplete record with the given name and description under the new ID. The ID is appended at the end of the order. The invariant is kept. |
| TodoProperties.CreateThenGet | src/todo_backend/src/lib.rs:37-59 | After create, `get_todo` on the returned ID gives the stored record, incomplete. Every other ID reads as before. |
| TodoProperties.GetTodoSpec | src/todo_backend/src/lib.rs:55-59 | Under the invariant, get succeeds exactly for the IDs in the order, with the stored record. It fails with `NotFound` for every ID at or above the counter. |
| TodoSpec.GetTodos | src/todo_backend/src/lib.rs:64-81 | The call succeeds if and only if the page's start index lies within the order; otherwise it fails with `PageOutOfRange` (the trap). A page never holds more records than the page size, which defaults to ten. |
| TodoSpec.Resolve | src/todo_backend/src/lib.rs:74-77 | The filter_map result is never longer than the list of IDs. When every ID is a key, it has one record per ID, in order. |
| TodoProperties.GetTodosSpec | src/todo_backend/src/lib.rs:64-81 | Under the invariant, a successful page has exactly `end - start` records. Record `k` is the record of `order[start + k]`, so the skip in filter_map never fires. |
| TodoProperties.PageSpec | src/todo_backend/src/lib.rs:72-77 | Under the invariant, the page from a given start holds the records of the next (up to) `page_size` IDs of the order, in order. |
| TodoProperties.PageZeroIsPageOne | src/todo_backend/src/lib.rs:68 | Because the subtraction saturates, page 0 gives the same reply as page 1. |
| TodoProperties.DefaultPageIsTen | src/todo_backend/src/lib.rs:66 | Omitting the page size is the same as a page size of 10. |
| TodoProperties.ZeroPageSizeIsEmpty | src/todo_backend/src/lib.rs:66-74 | A page size of 0 gives an empty page for any page number, never a trap. |
| TodoProperties.PageStartStep | src/todo_backend/src/lib.rs:68 | From page 1 on, each page starts exactly one page size after the previous one. |
| TodoProperties.PagesCover | src/todo_backend/src/lib.rs:64-81 | Reading pages 1 to `k` in turn yields the records of the order's first `k * page_size` IDs (or of all of them), each once and in creation order. Pages neither overlap nor leave gaps. |
| TodoProperties.ResolveAppend | src/todo_backend/src/lib.rs:74-77 | filter_map over a concatenation is the concatenation of the two results. |
| TodoProperties.TwentyFiveRecordsInPagesOfTen | src/todo_backend/src/lib.rs:190-209 | With 25 valid records and pages of ten, pages 1, 2 and 3 hold 10, 10 and 5 records. Page 4 traps. |
| TodoProperties.TwentyFiveRecordsAllListed | src/todo_backend/src/lib.rs:190-209 | Pages 1 to 3 together hold all 25 records, once each, in creation order. |
| TodoProperties.UpdateTodoUnlisted | src/todo_backend/src/lib.rs:91-95 | Updating an ID that is not in the order fails with `NotFound` and changes nothing, whatever the table holds. |
| TodoProperties.UpdateTodoSpec | src/todo_backend/src/lib.rs:85-114 | Under the invariant, updating a listed ID replies `Ok(true)`. It overwrites exactly the given fields of that record and leaves everything else alone: the missing fields, the other records, the key set, the order and the counter. "Not found in the store" cannot occur, and the invariant is kept. |
| TodoProperties.CompleteKeepsText | src/todo_backend/src/lib.rs:99-107 | Setting only the completion flag keeps the name and description. |
| TodoProperties.DeleteTodoAbsent | src/todo_backend/src/lib.rs:118-135 | Deleting an ID that is not a key fails with `NotFound` and changes nothing. |
| TodoProperties.DeleteTodoSpec | src/todo_backend/src/lib.rs:118-131 | Under the invariant, deleting a stored ID replies `Ok(true)`; the `Ok(false)` branch cannot occur. The table loses exactly that key. The order loses that ID and only it, the others keeping their relative order. The counter is unchanged, a later `get_todo` on the ID fails, and the invariant is kept. |
| TodoProperties.RemoveKeepsValid | src/todo_backend/src/lib.rs:120-126 | Removing one listed ID from both the table and the order keeps the invariant. |
| TodoProperties.RemoveAtMembers | src/todo_backend/src/lib.rs:126 | In an order without repeats, `Vec::remove` at a position drops exactly the element there. |
| TodoSpec.IndexFrom | src/todo_backend/src/lib.rs:125 | The search gives the first position at or after `i` that holds the ID. It finds nothing exactly when no such position exists. |
| TodoBackend.Position | src/todo_backend/src/lib.rs:125 | The loop returns the first position of the ID in the order, or nothing when the ID is absent. |
| TodoBackend.TodoStore.constructor | src/todo_backend/src/lib.rs:14-18 | Process start: empty table, empty order, counter at zero. The invariant holds. |
| TodoBackend.TodoStore.CreateTodo | src/todo_backend/src/lib.rs:30-51 | The fields change exactly as `TodoSpec.CreateTodo` says. Reply `Ok(old counter)`, counter plus one, new record under the ID, ID appended. The invariant is kept, and the new ID was unused. |
| TodoBackend.TodoStore.UpdateTodo | src/todo_backend/src/lib.rs:85-114 | The fields change exactly as `TodoSpec.UpdateTodo` says. An unlisted ID changes nothing. The order and counter never change. The invariant is kept, and under it "not found in the store" cannot occur. |
| TodoBackend.TodoStore.DeleteTodo | src/todo_backend/src/lib.rs:118-136 | The fields change exactly as `TodoSpec.DeleteTodo` says. A missing key changes nothing. The counter never changes. The invariant is kept, and under it the reply is `Ok(true)` exactly for stored IDs. |
| TodoProperties.ApplyKeepsValid | src/todo_backend/src/lib.rs:30-136 | Each state-changing call keeps the invariant. |
| TodoProperties.RunKeepsValid | src/todo_backend/src/lib.rs:14-136 | Any sequence of calls keeps the invariant. |
| TodoProperties.IssuedConsecutive | src/todo_backend/src/lib.rs:31-35 | Over any sequence of calls, the creates return consecutive IDs starting at the counter. Updates and deletes neither consume nor free an ID. |
| TodoProperties.IssuedFromEmpty | src/todo_backend/src/lib.rs:17-35 | From process start, the creates return 0, 1, 2, ... in strictly increasing order. |
| TodoProperties.NeverReissued | src/todo_backend/src/lib.rs:31-35 | An ID once handed out is never handed out again, even after its record is deleted. |

## Left out

- Canister plumbing is not modelled: the `update`/`query` attributes, Candid
  encoding and `export_candid!`. Each call is one function or method.
- `thread_local!`, `RefCell` and `Cell` are left out. The three pieces of state
  are the fields of one object, so borrows cannot overlap.
- TodoBackend.TodoStore.CreateTodo: does not model the `u64` counter
  overflowing at `current + 1`, because the counter is a `nat`. Under
  wrap-around the source would reissue ID 0.
- TodoSpec.GetTodos: does not model overflow of `(page - 1) * page_size`, of
  the `usize` cast or of `start + page_size`, because indices are `nat`. It
  answers as if the arithmetic were exact.
- The error message texts are replaced by the tags of `Error`.
- `Clone`, `Debug`, `Default` and the serialization derives are not
  modelled. Records are values, so cloning is the identity.
- The unit tests' `TODOSTATE.clear()` at the start of the pagination test is
  not modelled. That scenario starts from a fresh store.
