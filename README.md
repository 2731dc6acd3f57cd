# PgTupleDesc: a verified model of pgx's tuple-descriptor wrapper

pgx wraps PostgreSQL's row-shape descriptor (`TupleDescData`) in `PgTupleDesc`. The
wrapper has five constructors. Each one records in two flags how the descriptor is
given back when the handle is dropped:

- `need_release`: the descriptor is reference-counted, so drop decrements its count,
  but only when `tdrefcount >= 0`. A count of -1 marks a descriptor that lives in a
  memory context.
- `need_pfree`: the handle owns a private copy, so drop frees it.
- neither: the descriptor belongs to a relation, so drop does nothing.

Around that sit the bounds-checked accessors (`len`, `is_empty`, `get`, `oid`, `typmod`,
`parent`), value extraction from attached composite data (`get_attr`), and two iterators
that walk a cursor.

The project has four files:

- `wrappers.dfy` (module `Wrappers`): `Option`.
- `pg_sys.dfy` (module `PgSys`): an abstract PostgreSQL backend. Host memory is a map
  from pointers to descriptor records. The foreign calls are methods of `Host`, each with
  a contract: `pfree`, `DecrTupleDescRefCount`, `CreateTupleDescCopyConstr` (returns a
  fresh copy with refcount -1), `lookup_rowtype_tupdesc` (returns the type cache's
  descriptor and pins it when it is counted), and `pg_detoast_datum` (returns a header
  recorded per datum). `pfree` and `DecrTupleDescRefCount` also append to a ghost call
  log, so cleanup can be stated call by call.
- `tupdesc.dfy` (module `TupleDesc`): the wrapper as a datatype with its accessors; the
  constructors; `Drop` and `release_tupdesc`; and the lemmas about the handle's lifecycle.
- `tupdesc_iter.dfy` (module `TupleDescIter`): the two iterators as classes with a `curr`
  field, the pure results of their first n `next` calls, and the lemmas about iteration.

System boundaries:

- Value decoding (`heap_getattr`) is a function parameter of `GetAttr`.
- The host's memory is the `Host` object.
- Accessors read host memory as a `map` value.
- `parent()` only returns the handle's `parent` field, so the model exposes that field
  directly. Each constructor's contract states its value: `Some(rel)` for `FromRelation`
  and `None` for all the others.

On a handle without composite data, `get_attr` panics via `expect`
(pgx/src/tupdesc.rs:211) instead of returning `None`. `GetAttr` models that panic as its
`Panic` outcome.

`SpecifiedCalls` is the cleanup that pgx's own doc comments promise for each provenance.
A cache descriptor gives back its reference unless its `tdrefcount` is -1
(pgx/src/tupdesc.rs:37-45, 58-59). A copy is `pfree()`'d (pgx/src/tupdesc.rs:78, 97). A
relation's descriptor is left alone. Each constructor's contract ties `DropCalls`, the
calls the code makes on drop, to that table.

## Model

| member | source | states |
|---|---|---|
| `TupleDesc.FromPg` | pgx/src/tupdesc.rs:65-73 | wraps the pointer unchanged with `need_release` set, `need_pfree` clear, no parent and no data; for every refcount, dropping it makes the calls `SpecifiedCalls` promises for a reference-counted descriptor |
| `TupleDesc.FromPgCopy` | pgx/src/tupdesc.rs:84-93 | the handle wraps a fresh host copy (never the given pointer). Host memory gains exactly that uncounted copy, and no call is logged. The copy has the input's `oid`, `typmod` and `len`, and it is well formed when the input is. `need_pfree` is set and `need_release` clear; dropping it frees the copy |
| `TupleDesc.FromPgIsCopy` | pgx/src/tupdesc.rs:118-126 | same flags as `FromPgCopy`, but the given pointer is wrapped unchanged and nothing is copied; dropping frees that pointer |
| `TupleDesc.FromRelation` | pgx/src/tupdesc.rs:129-138 | wraps `rel.rd_att` with `parent == Some(rel)` and neither flag set; for every refcount, dropping it makes no host call |
| `TupleDesc.FromComposite` | pgx/src/tupdesc.rs:147-166 | wraps the type cache's descriptor for the detoasted header's (type id, typmod), which the lookup pins. `data` is `Some` with `t_len` the header's datum length truncated to u32 and `t_data` the header. `oid`/`typmod` equal the header's. Same flags as `FromPg`; dropping gives the pin back |
| `TupleDesc.PgTupleDesc.Oid` | pgx/src/tupdesc.rs:174-176 | the descriptor's `tdtypeid`. For a copy, the input's oid (`FromPgCopy`); for a composite handle, the header's type id (`FromComposite`); unchanged by every refcount change (`RefcountChangesKeepReads`) |
| `TupleDesc.PgTupleDesc.Typmod` | pgx/src/tupdesc.rs:179-181 | the descriptor's `tdtypmod`. For a copy, the input's typmod (`FromPgCopy`); for a composite handle, the header's typmod (`FromComposite`); unchanged by every refcount change (`RefcountChangesKeepReads`) |
| `TupleDesc.PgTupleDesc.Len` | pgx/src/tupdesc.rs:184-186 | `natts` when it is non-negative, which for a well-formed descriptor is the length of the attribute array; always below 2^64 (`as usize`) |
| `TupleDesc.UsizeFromInt32` | pgx/src/tupdesc.rs:185 | `i32 as usize`: below 2^64 and congruent to the input modulo 2^64, which fixes the value (`x + 2^64` for negative `x`); the identity on non-negative values |
| `TupleDesc.TruncateToU32` | pgx/src/tupdesc.rs:156 | `as u32`: the identity below 2^32, otherwise congruent modulo 2^32 |
| `TupleDesc.PgTupleDesc.IsEmpty` | pgx/src/tupdesc.rs:189-191 | true exactly when `natts == 0`, for every `i32` value of `natts` (the cast is injective), i.e. when the attribute array is empty |
| `TupleDesc.PgTupleDesc.Get` | pgx/src/tupdesc.rs:194-200 | `None` exactly when `i >= len()`, including `i == len()`; otherwise `Some` of entry `i` of the native attribute array (`tupdesc_get_attr`), which is never read past its `natts` entries |
| `TupleDesc.PgTupleDesc.GetAttr` | pgx/src/tupdesc.rs:207-215 | panics with the source's message exactly when no composite data is attached; otherwise returns the decoder's answer for the one-based attribute number `attno + 1` |
| `TupleDesc.PgTupleDesc.DropCalls` | pgx/src/tupdesc.rs:234-248 | dropping makes at most one host call, and only on the handle's own descriptor. A descriptor with refcount < 0 is never decremented. A releasing handle is never freed (release is checked first). Neither flag means no call; only `need_pfree` means one `pfree`; `need_release` with refcount >= 0 means one decrement |
| `TupleDesc.Drop` | pgx/src/tupdesc.rs:234-242 | the log grows by exactly `DropCalls` of the refcount at drop time. Host memory changes as that call says (count lowered by one, the copy removed, or nothing), and nothing else changes |
| `TupleDesc.ReleaseTupdesc` | pgx/src/tupdesc.rs:244-248 | when `tdrefcount >= 0`: one `DecrTupleDescRefCount` call, and the count is lowered by one. Otherwise (an arena descriptor, count -1): host memory and log are unchanged |
| `TupleDescIter.TupleDescIterator.constructor` | pgx/src/tupdesc.rs:217-223 | `iter()` borrows the handle with the cursor at 0 and nothing produced |
| `TupleDescIter.TupleDescIterator.Next` | pgx/src/tupdesc.rs:280-284 | returns `get(curr)` and advances `curr` by one even past the end; everything returned so far is the attributes in order followed by `None`s |
| `TupleDescIter.TupleDescDataIntoIterator.constructor` | pgx/src/tupdesc.rs:296-301 | `into_iter()` takes the handle with the cursor at 0 |
| `TupleDescIter.TupleDescDataIntoIterator.Next` | pgx/src/tupdesc.rs:307-316 | returns `get(curr)` by value; advances only after a `Some`, so the cursor never passes `len()`; everything returned so far is the attributes in order followed by `None`s |
| `TupleDescIter.IterYieldsAttrsInOrder` | pgx/src/tupdesc.rs:277-285 | for every n, the first n results of `iter()` are the n first attributes in order, then `None` for every call from `len()` on |
| `TupleDescIter.IntoIterYieldsAttrsInOrder` | pgx/src/tupdesc.rs:304-317 | for every n, the first n results of `into_iter()` are the same in-order sequence, after which the cursor stands at `min(n, len())` |
| `TupleDescIter.IteratorsAgree` | pgx/src/tupdesc.rs:272-317 | the borrowing and the consuming iterator yield the same items, call by call |
| `TupleDescIter.IterationDependsOnlyOnAttrs` | pgx/src/tupdesc.rs:217-223 | two handles of any provenance over descriptors with the same attributes iterate identically |
| `TupleDesc.CopyThenDrop` | pgx/src/tupdesc.rs:84-93 | wrapping a copy and dropping it leaves host memory as it was, with exactly one `pfree`, of the copy |
| `TupleDesc.CompositeThenDrop` | pgx/src/tupdesc.rs:147-166 | a composite-derived handle, dropped, leaves host memory as it was. When the descriptor is counted, one decrement balances the lookup's pin; when not, no call is made |
| `TupleDesc.GetAttrNeedsCompositeData` | pgx/src/tupdesc.rs:202-215 | handles from `from_pg`, `from_pg_is_copy` and `from_relation` have no composite data, so `get_attr` panics for every attribute number |
| `TupleDesc.ThreeColumnRelation` | pgx/src/tupdesc.rs:129-200 | a relation with three columns: `len` is 3, not empty, `get(0..2)` are `Some` in order, `get(3)` is `None` |
| `TupleDesc.ReadsDependOnlyOnShape` | pgx/src/tupdesc.rs:174-200 | when two memories hold descriptors that differ at most in `tdrefcount`, a handle reads the same `oid`, `typmod`, `len`, `is_empty` and every `get` in both |
| `TupleDesc.RefcountChangesKeepReads` | pgx/src/tupdesc.rs:244-248 | a refcount decrement on release, or the type cache's pin, on any descriptor leaves every handle's `oid`, `typmod`, `len`, liveness and every `get` unchanged: `natts` stays fixed after construction |

## Left out

- Rust lifetimes, `Deref` and `PgBox` cannot be expressed here. So the model does not
  enforce the borrow that keeps a relation-derived handle alive while its relation lives,
  and it does not enforce the move that stops a dropped handle from being used again.
- The `unsafe` caller promises become `requires` clauses instead: the pointer is in host
  memory and, for `Get` and the iterators, well formed.
- The `pg10` variant of `tupdesc_get_attr` (a pointer array) and the later one (an inline
  array) differ only in representation. `Get` models both as one sequence index into the
  attribute array, and only below `natts`.
- `PgBox<HeapTupleData, AllocatedByRust>` frees its own allocation when the handle is
  dropped. `PgBox` is not part of this model, so that free is not in the call log. The log
  holds only the calls `drop` itself makes.
- `FromComposite`: the host's error when the row type is not in the type cache is a
  precondition and not modelled. This is the unsafe promise that the datum is composite.
- `PgSys.Host.DecrTupleDescRefCount`: the host's own assertion that the count is positive,
  and its freeing of the descriptor at zero, are not modelled.
- `tdrefcount` is an unbounded integer. The C `int` cannot overflow through the
  wrapper's single decrement or the lookup's single pin.
- `GetAttr`: `attno` is unbounded; the `usize` overflow of `attno + 1` at `usize::MAX` is
  not modelled.
- `TupleDescIterator.Next`: the cursor is unbounded; the `usize` overflow of `curr += 1`
  after 2^64 calls is not modelled.
- `pg_detoast_datum` may allocate a decompressed copy. The model returns the header
  recorded for the datum and does not model that allocation.
- `TupleDescIter.TupleDescDataIntoIterator`: in Rust, dropping the consuming iterator
  drops the handle it owns, which runs `Drop::drop`. The iterator class has no destructor.
  The caller applies `TupleDesc.Drop` to the iterator's `tupdesc` instead.
