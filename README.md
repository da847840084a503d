# Comparing chained structured errors (package `sp`)

This project models the comparison operators of the structured error type of
the `sperr` library, `core/sp/compare.go`, in Dafny (`sp.dfy`, module `Sp`).

A structured `Error` wraps a `cause`, carries a content hash `id`, and links
back to the `previous` Error it superseded, forming a chain from newest to
oldest. The file defines four comparisons:

- `Is`: shallow. `errors.Is` is applied to this node's own cause only.
- `DeepIs`: deep. It copies the receiver struct into a private `cp`, calls
  `cp.Pop()` until it yields nil, and returns true at the first popped node
  whose cause matches.
- `IsSP`: identity. It compares the finalized digests `id.Sum(nil)` of two
  errors with `slices.Compare(...) == 0`.
- `cmpHashes`: the same digest test on two bare `hash.Hash` values.

How the model stands in for what the file calls but does not define:

- `errors.Is(cause, target)` is the relation `matches: (E, E) -> bool`, passed
  to each operation and otherwise uninterpreted. `E` is the type of Go error
  values.
- A `hash.Hash` is the class `Hash`, holding the digest it currently
  finalizes to. `Sum(b)` is a function returning `b` followed by that digest,
  so it cannot change the hash.
- `slices.Compare` on byte slices is `Compare`, lexicographic comparison.
- `Pop` is not defined in this file. It is modelled from the way `DeepIs`
  uses it (core/sp/compare.go:23-27): each call hands out the current node
  and moves the receiver one link back. Once the receiver has moved past the
  oldest node, `Pop` yields nil and keeps yielding nil. Only the receiver
  changes. The field `drained` stands for that exhausted receiver state. The
  ghost field `chain` lists the snapshots that successive `Pop` calls yield.
  `Valid()` ties `chain` to the `previous` links, keeps those links finite
  and acyclic, and requires every node reached through `previous` to be a
  live node (never an exhausted receiver).
- `DeepIs` has no `modifies` clause. The verifier therefore checks that it
  changes no field of the receiver or of any node of its chain: it pops only
  the fresh copy made by `CopyOf`. This is why two calls in a row agree
  (`DeepIsRepeatable`).

Nil values: a nil receiver panics in `Is`, `DeepIs` and `IsSP`
(core/sp/compare.go:13, 20, 40), and so do a nil `err *Error` passed to
`IsSP` and a nil `id` hash on either side (core/sp/compare.go:40). A nil
`err error` target of `Is` or `DeepIs`, and a nil cause, are ordinary
arguments of `errors.Is`: with one side nil, it reports whether the other
side is nil too. The
model therefore takes non-null `Error` and `Hash` references, while the
target of `Is` and `DeepIs` is an unrestricted value of `E`, so whatever
`matches` says about a nil target applies.

## Model

| member | source | states |
|---|---|---|
| `Sp.Compare` | core/sp/compare.go:40 | `slices.Compare` of two byte sequences is -1, 0 or 1, and it is 0 exactly when the two sequences have equal length and equal bytes |
| `Sp.CmpHashes` | core/sp/compare.go:43-45 | `cmpHashes(h1, h2)` is true exactly when the two finalized digests are the same byte sequence |
| `Sp.FirstMatch` | core/sp/compare.go:23-31 | the position where the popping loop stops: a matching node with no match before it, or the chain length when nothing matches; it is below the length exactly when some node matches |
| `Sp.FirstMatchAfter` | core/sp/compare.go:28-30 | when no node before position k matches and the node at k does, the search stops at k |
| `Sp.Error.CopyOf` | core/sp/compare.go:19-20 | `*cp = *e` gives a fresh error with the same cause, hash, previous link and Pop sequence as `e`, sharing the nodes behind `previous` |
| `Sp.Error.Pop` | core/sp/compare.go:24-27 | changes only its receiver; on a non-exhausted receiver it returns the first node of the Pop sequence and drops it from the receiver's sequence; on an exhausted receiver it returns nil and the receiver stays exhausted |
| `Sp.Error.DeepIsUnfolds` | core/sp/compare.go:12-34 | the deep search of a node holds exactly when the shallow `Is` holds at that node or the deep search of its `previous` node holds |
| `Sp.Error.Is` | core/sp/compare.go:12-14 | `errors.Is` (the relation `matches`) applied to this node's own cause; its reads frame is the `cause` field alone, so it never reads `id` or `previous` |
| `Sp.IsReadsOnlyCause` | core/sp/compare.go:12-14 | `Is` depends on the cause alone: two errors with the same cause agree on it whatever their hashes and chains |
| `Sp.Error.DeepIs` | core/sp/compare.go:18-34 | true exactly when some node of the receiver's Pop sequence has a matching cause; the tested nodes are a prefix of that sequence in Pop order; on true the last tested node is the first match, so nothing after it is tested; on false every node is tested once; the receiver is left unchanged |
| `Sp.DeepIsRepeatable` | core/sp/compare.go:18-34 | calling `DeepIs` twice on the same receiver gives the same answer both times |
| `Sp.ChainScenario` | core/sp/compare.go:12-34 | for a valid live chain A -> B -> C where only B's cause matches: `Is` on A is false, the Pop sequence is A, B, C, and the deep search finds a match at position 1 |
| `Sp.Error.IsSP` | core/sp/compare.go:39-41 | `IsSP` is true exactly when the two `id` hashes finalize to the same byte sequence; its frame reads only `id` and the two hashes, never the cause or the chain |
| `Sp.Error.IsSPReflexive` | core/sp/compare.go:36-41 | every error is IsSP-equal to itself |
| `Sp.Error.IsSPSymmetric` | core/sp/compare.go:39-41 | `a.IsSP(b)` equals `b.IsSP(a)` |
| `Sp.Error.IsSPIsCmpHashes` | core/sp/compare.go:39-45 | `a.IsSP(b)` equals `cmpHashes(a.id, b.id)` |
| `Sp.IsSPOnlyDigests` | core/sp/compare.go:36-41 | errors whose digests agree are IsSP-equal whatever their causes and chains |

## Left out

- pkg/logger/logger.go is not part of this model. It only sets up `log/slog` handlers that write to standard output and forwards log calls to them.
- The unwrapping semantics of `errors.Is` belong to the Go standard library. The model treats it as an arbitrary relation `matches`.
- How a `hash.Hash` absorbs input (`Write`, `Reset`, `Size`, `BlockSize`) is not modelled. Only the digest that `Sum` appends is.
- The other fields of the Go `Error` struct are not modelled, and neither is how an `Error` is built (`Ensure`). Their definitions are not in `core/sp/compare.go`.
- Pop's body is not in `core/sp/compare.go`. Its contract is the assumed shape described above.
- `Sp.Error.Pop` returns a value snapshot of the node (`Node`: cause and hash) rather than a pointer to an `Error`, because `DeepIs` only reads the popped node's cause.
- `Sp.Compare` states only that the result is -1, 0 or 1 and is 0 exactly for equal sequences. It does not state which sign a difference gives, because the core only tests the result against 0.
- Nil receivers and nil `Error`/`Hash` arguments are excluded by the non-null types rather than modelled as panics.
