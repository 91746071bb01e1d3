# Thread-local storage: creating a region

This project models `tls_create` from a user-space thread-local-storage
engine. It also models the data that `tls_create` works on: the
process-wide registry `hash_table` and the TLS descriptor, page and registry
element types.

The registry is a hash table with 128 buckets and separate chaining, keyed
by thread identity. `tls_create(size)` runs these steps in order:

1. It fails with -1 when `size` is 0.
2. It hashes the caller's thread id to the bucket `tid % 128`.
3. It walks that bucket's chain and fails with -1 if the thread is already
   there.
4. It allocates a descriptor holding `ceil(size / page_size)` pointers to
   freshly mapped pages, each with reference count 1.
5. It appends a new element for the thread at the tail of the chain, or
   makes it the head of an empty chain, and returns 0.

The model is one Dafny module, `Tls`, in `tls.dfy`. It contains:

- `Page`, `Descriptor` and `Registry`: classes, because the source updates
  these in place.
- `Elem`: a chain element, modelled as a value.
- `Registry.buckets`: an array of 128 chains. Each chain is a sequence whose
  order is the order of the `next` links.
- `Registry.Create`: an imperative method. Its page-filling loop and the
  chain walk in `FindThread` carry loop invariants.

The caller's thread id (`pthread_self`), the host page size (`getpagesize`)
and the address each `mmap` call returns are parameters of `Create`.

## Model

| member | source | states |
|---|---|---|
| `Tls.Hash` | tls.c:53 | the bucket index is always below 128, and a thread id below 128 is its own bucket |
| `Tls.PageCount` | tls.c:74-75 | the page count is the ceiling of size / page size: `n * pageSize >= size`, `(n - 1) * pageSize < size` when `n > 0`, and `n <= size`, so it fits the `unsigned int` field |
| `Tls.PageCountAsWritten` | tls.c:75 | the source's formula, with the 32-bit unsigned wrap of `size + (page_size - 1)` written out; the pages it counts span less than 2^32 bytes |
| `Tls.PageCountAsWrittenAgrees` | tls.c:75 | when `size + page_size - 1` does not wrap, the source's formula equals the ceiling |
| `Tls.PageCountWraps` | tls.c:75 | counterexample: for a size of 2^32 - 1 and a 4096-byte page, the source's formula gives 0 pages where 2^20 are needed |
| `Tls.AppendHasThread` | tls.c:94-104 | after an append, the chain holds a thread exactly when the old chain held it or the new element belongs to it |
| `Tls.AppendKeepsDistinct` | tls.c:57-60 | appending a thread that the walk did not find keeps every thread at most once in the chain |
| `Tls.RegisteredIffAnywhere` | tls.c:53-57 | when every element sits in its own thread's bucket, searching the thread's own bucket finds the thread exactly when it is anywhere in the table |
| `Tls.OneEntryPerThread` | tls.c:36 | in a table where every element sits in its thread's bucket and no bucket repeats a thread, two entries with the same thread are the same entry |
| `Tls.Page.constructor` | tls.c:85-87 | a new page has the given address and a reference count of 1 |
| `Tls.Descriptor.constructor` | tls.c:68-79 | a new descriptor has the given tid, unrounded size and page count, and a fresh page array of that length whose entries are all null |
| `Tls.Registry.constructor` | tls.c:36 | the registry has 128 buckets, all of them empty |
| `Tls.Registry.FindThread` | tls.c:54-64 | the walk finds the thread exactly when its bucket holds it; when the walk does not find it, `last` is the index of the tail, or -1 for an empty chain |
| `Tls.Registry.Create` | tls.c:41-107 | returns 0 or -1. It returns -1 exactly when the size is 0 or the thread is already in its bucket, and then no bucket changes. No other bucket is ever changed. On success the bucket is the old chain with one element appended. That element holds the thread id and a fresh descriptor with the unrounded size and `PageCount(size, pageSize)` pages. The pages are fresh and pairwise distinct, each with reference count 1 and the mapped address. Uniqueness and placement of threads in buckets are preserved whatever the result |
| `Tls.CreateTwice` | tls.c:57-60 | a second create by the same thread without a destroy in between fails, and the first succeeds exactly when the size is non-zero and the thread was absent |

## Findings

| source | as written | input that shows it | evidently intended | confidence | as-written member | corrected member |
|---|---|---|---|---|---|---|
| tls.c:75 | `(size + (page_size-1)) / page_size` is computed in 32-bit `unsigned int`, so the sum wraps when `size > 2^32 - page_size` | `size = 4294967295` with `page_size = 4096`: the sum wraps to 4094 and `page_num` becomes 0, so a non-empty region gets no pages | `page_num = ceil(size / page_size)`, which here is 1048576 | not executed; follows from C's unsigned arithmetic | `Tls.PageCountWraps` (on `Tls.PageCountAsWritten`) | `Tls.PageCount`, computed as `size / page_size` plus one when there is a remainder, which `Registry.Create` uses |

## Left out

- `tls_init` and the `initialized` flag (tls.c:37, 43-45): `tls_init` is not part of this model, because it is not defined in tls.c. It installs the fault handlers, and it runs before the size check.
- `calloc`, `malloc`, `mmap`, `getpagesize` and `pthread_self` are foreign calls. Allocation is modelled by `new`. The mapped addresses come from the parameter `mapAddress`, the page size from `pageSize`, and the thread id from `tid`. The source never checks for allocation failure, so the model has no such error path.
- The source computes the count with the `page_size` returned by `getpagesize()` (tls.c:74), but maps pages with the global `PAGE_SIZE` (tls.c:86). The model uses the single parameter `pageSize` for both.
- Page protection (`PROT_NONE`), the fault handler, signals and thread termination are host facilities, so they are not modelled.
- `tls_read`, `tls_write`, `tls_clone` and `tls_destroy` are not part of this model, because tls.c does not define them. Copy-on-write is left out for the same reason.
- Concurrency is left out. The source reads and writes `hash_table` without locking. `Create` is modelled as one sequential call on one registry.
- The `next` pointers of the chain: a chain is a sequence, so `last->next = new_elem` (tls.c:103) is modelled as appending to the sequence. Pointer aliasing between chain elements is therefore not modelled.
- Tls.Registry.Create: uses the corrected page count `PageCount` rather than the wrapping formula of tls.c:75 (see Findings). The two agree whenever `size + pageSize - 1 < 2^32` (`PageCountAsWrittenAgrees`).
