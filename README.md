# DexNullArrayRefTransformer, modelled in Dafny

Soot's `DexNullArrayRefTransformer` is a body pass for methods decompiled
from Dalvik bytecode. Dalvik code can dereference an array through a local
that is always null at that statement. Soot's fast type resolver rejects such
a statement ("Base of array reference is not an array!"). The pass therefore
replaces each such statement with a `nop` in the same slot of the unit chain.

The pass works in three phases, and the model keeps all three:

1. **Collect.** One loop over the body puts every statement that contains an
   array reference into `arrayRefs`. Otherwise, every assignment whose
   right-hand side is a `LengthExpr` goes into `lengthExprs`
   (`DexNullArrayRefTransformer.Collect`, specified by `Collected`).
2. **Query.** A nullness analysis is built once, over the exceptional unit
   graph of the original body. For each collected statement, the pass asks
   whether the relevant base is always null before that statement. The base
   is the array-reference base, or the length operand.
3. **Replace.** Each statement that gets a "yes" is swapped for a fresh `nop`
   with `swapWith`, at the statement's own position
   (`SwapArrayRefs`, `SwapLengthExprs`, `SwapWith`).

Files:

- `jimple.dfy` (module `Jimple`) holds the part of Jimple the pass inspects.
  A statement (`Stmt`) is a `nop`, a statement containing an array reference
  (optionally also an assignment), an assignment without an array reference,
  or anything else. Operands (`Value`) are locals, constants, or a
  non-Immediate value. `Immediate` is the subset type the analysis accepts.
  `AsImmediate` is the `(Immediate)` cast.
- `dex_null_array_ref_transformer.dfy` (module `DexNullArrayRefTransformer`)
  holds the pass. It has `InternalTransform` over an `array<Stmt>`, its
  collection and replacement loops, and two specification functions. The
  first, `SwapAlwaysNull`, is one replacement loop written as a function. The
  second, `Transformed`, gives the effect of the pass position by position.
  The lemmas connect the two.

The nullness analysis and the exceptional unit graph are an uninterpreted
oracle, `alwaysNullBefore: (nat, Immediate) -> bool`. It is a parameter of
`InternalTransform`. Its first argument is a statement's position in the
*original* body. That position stands for the statement object the analysis
was built over, because a unit chain holds each object once, at one slot.
Collected statements are `Entry(pos, stmt)` values for the same reason.

The main results:

- `InternalTransform` leaves `body[..] == Transformed(old(body[..]), alwaysNullBefore)`.
- `Transformed` keeps the length of the body. It replaces an array-reference
  statement iff its array base is reported always null. It replaces a length
  assignment iff its operand is reported always null. It keeps every other
  statement in its slot.
- Both `swapWith` loops find their statement still in its slot. Within one
  loop this holds because the lists are in body order. Across the two loops
  it holds because the lists are disjoint.
- Running the length loop first gives the same result. Running the pass again
  with the same analysis answers changes nothing.

## Model

| member | source | states |
|---|---|---|
| `DexNullArrayRefTransformer.Collected` | src/soot/dex/DexNullArrayRefTransformer.java:41-54 | each collected entry is the statement in its own slot of the body and has the list's category; positions strictly increase, so the list follows body order and holds each statement at most once |
| `DexNullArrayRefTransformer.CollectedComplete` | src/soot/dex/DexNullArrayRefTransformer.java:43-54 | a position is in a list iff the statement there has that list's category (the loop misses none) |
| `DexNullArrayRefTransformer.CategoriesExclusive` | src/soot/dex/DexNullArrayRefTransformer.java:45-52 | the array-reference list and the length list share no position |
| `DexNullArrayRefTransformer.ArrayRefWinsOverLength` | src/soot/dex/DexNullArrayRefTransformer.java:45-52 | a statement with an array reference and a `LengthExpr` right-hand side is in the array-reference list, not in the length list, and only its array base decides whether it is replaced |
| `DexNullArrayRefTransformer.CollectedFlagged` | src/soot/dex/DexNullArrayRefTransformer.java:56-74 | a list holds a flagged entry at `j` iff the statement at `j` has the list's category and the analysis reports its base always null |
| `DexNullArrayRefTransformer.SwapAlwaysNull` | src/soot/dex/DexNullArrayRefTransformer.java:56-65 | a replacement loop keeps the number of statements (each swap is one for one) |
| `DexNullArrayRefTransformer.SwapAlwaysNullAt` | src/soot/dex/DexNullArrayRefTransformer.java:62-63 | after a replacement loop a slot holds `nop` iff some entry at that slot was reported always null; every other slot keeps its statement |
| `DexNullArrayRefTransformer.Transformed` | src/soot/dex/DexNullArrayRefTransformer.java:43-75 | same length; a statement containing an array reference becomes `nop` iff its array base is always null before it; an assignment from `lengthof b` without an array reference becomes `nop` iff `b` is always null before it; every other statement stays in its slot; the result's casts still succeed |
| `DexNullArrayRefTransformer.SwapLoopsYieldTransformed` | src/soot/dex/DexNullArrayRefTransformer.java:55-75 | the array-reference loop followed by the length loop gives `Transformed`, and so does the opposite order, because every answer comes from the analysis of the original body |
| `DexNullArrayRefTransformer.RerunCollectsUnflagged` | src/soot/dex/DexNullArrayRefTransformer.java:45-51 | on the pass's own output a `nop` is never collected: a second run collects exactly the statements of each category that the first run left in place |
| `DexNullArrayRefTransformer.TransformedIdempotent` | src/soot/dex/DexNullArrayRefTransformer.java:43-75 | with the same analysis answers, applying the pass to its own output changes nothing |
| `DexNullArrayRefTransformer.Collect` | src/soot/dex/DexNullArrayRefTransformer.java:41-54 | the collection loop returns exactly `Collected(body, ArrayRefs)` and `Collected(body, LengthExprs)` |
| `DexNullArrayRefTransformer.SwapWith` | src/soot/dex/DexNullArrayRefTransformer.java:63 | `swapWith` needs the outgoing statement in its slot, puts the `nop` in that slot and moves nothing else |
| `DexNullArrayRefTransformer.SwapArrayRefs` | src/soot/dex/DexNullArrayRefTransformer.java:56-65 | the array-reference loop asks about each statement's array base and leaves `SwapAlwaysNull` of the old body; every swap finds its statement in its slot |
| `DexNullArrayRefTransformer.SwapLengthExprs` | src/soot/dex/DexNullArrayRefTransformer.java:66-75 | the length loop asks about each assignment's length operand and leaves `SwapAlwaysNull` of the old body; every swap finds its statement in its slot |
| `DexNullArrayRefTransformer.InternalTransform` | src/soot/dex/DexNullArrayRefTransformer.java:37-77 | the pass leaves the body equal to `Transformed` of the original body |

## Left out

- The nullness analysis and the exceptional unit graph
  (`NullnessAnalysis`, `ExceptionalUnitGraph`) are foreign classes. Their
  lattice, fixpoint and exceptional-edge handling are not part of this model.
  They are the oracle `alwaysNullBefore`, fixed over the original body. So no
  property here depends on the analysis being sound.
- TransformedIdempotent: idempotence is stated for the same analysis answers
  only. A real second run builds a new analysis over the changed body, and
  removing a dereference can change what that analysis concludes.
- Soot's statement classes are not part of this model. `containsArrayRef`,
  `getArrayRef().getBase()`, `instanceof AssignStmt` and `getRightOp()` are
  read off the `Stmt` datatype. The model does not say which side of an
  assignment `getArrayRef` would pick if both sides held an array reference.
- InternalTransform: the `(Immediate)` casts are a precondition
  (`WellFormedBody`). A `ClassCastException` for a non-Immediate base, and the
  partly rewritten body it would leave behind, are not modelled.
- The unit chain is an `array<Stmt>` addressed by position. The fresh `nop`
  objects are the value `NopStmt`, so the model does not distinguish one
  `nop` object from another. `PatchingChain`'s redirection of unit boxes
  (jump targets, trap ranges) on `swapWith` is not modelled. The model does
  keep every other statement in its slot.
- `Debug.printDbg` logging is diagnostic output only.
- Pipeline plumbing is not modelled: the `BodyTransformer` superclass, the
  `phaseName` and `options` parameters (unused by the pass) and the factory
  `v()`.
- The class comment says that the statements are replaced by a throw
  statement. The code inserts a `nop`, and the model follows the code.
