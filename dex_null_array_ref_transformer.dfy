/**
 * DexNullArrayRefTransformer: a body pass that replaces every statement
 * dereferencing an array base that is always null at that point by a `nop`.
 *
 * The nullness analysis, built once over the exceptional unit graph of the
 * original body, is an uninterpreted oracle `alwaysNullBefore(pos, base)`:
 * `pos` is the position of the statement in the original body (it stands for
 * the statement object the analysis was built over) and `base` the Immediate
 * asked about.
 */
module DexNullArrayRefTransformer {
  import opened Jimple

  /** A collected statement together with its slot in the body. Soot's lists
      hold statement objects and a unit chain holds each object once, at one
      position; `pos` stands for that identity. */
  datatype Entry = Entry(pos: nat, stmt: Stmt)

  /** The list, if any, a statement is put in by the collection loop. */
  datatype Category = ArrayRefs | LengthExprs | Skipped

  function Classify(s: Stmt): Category {
    if s.ContainsArrayRef() then ArrayRefs
    else if s.IsAssign() && s.GetRightOp().LengthExpr? then LengthExprs
    else Skipped
  }

  /** The base the pass asks the analysis about: the array-reference base for
      an array-reference statement, the length operand for a length assignment. */
  function BaseOf(s: Stmt): Value
    requires Classify(s) != Skipped
  {
    if s.ContainsArrayRef() then s.GetArrayRefBase() else s.GetRightOp().op
  }

  /** The `(Immediate)` casts of the pass succeed on this statement. */
  predicate WellFormed(s: Stmt) {
    Classify(s) == Skipped || BaseOf(s).IsImmediate()
  }

  predicate WellFormedBody(body: seq<Stmt>) {
    forall i | 0 <= i < |body| :: WellFormed(body[i])
  }

  function Query(s: Stmt): Immediate
    requires Classify(s) != Skipped && WellFormed(s)
  {
    AsImmediate(BaseOf(s))
  }

  /** The positions of a list of entries. */
  function Positions(entries: seq<Entry>): set<nat> {
    set k | 0 <= k < |entries| :: entries[k].pos
  }

  /** Every entry still holds its statement in its slot of `body`. */
  predicate InSlots(body: seq<Stmt>, entries: seq<Entry>) {
    forall k | 0 <= k < |entries| :: entries[k].pos < |body| && body[entries[k].pos] == entries[k].stmt
  }

  /** The entries are in body order, each slot at most once. */
  predicate Increasing(entries: seq<Entry>) {
    forall k1, k2 | 0 <= k1 < k2 < |entries| :: entries[k1].pos < entries[k2].pos
  }

  /** The list of category `c` that the collection loop builds over `body`. */
  function Collected(body: seq<Stmt>, c: Category): (r: seq<Entry>)
    ensures InSlots(body, r) && Increasing(r)
    ensures forall k | 0 <= k < |r| :: Classify(r[k].stmt) == c
    decreases |body|
  {
    if body == [] then []
    else
      var n := |body| - 1;
      Collected(body[..n], c) + (if Classify(body[n]) == c then [Entry(n, body[n])] else [])
  }

  /** Every entry is a collected statement whose base cast succeeds. */
  predicate Queryable(entries: seq<Entry>) {
    forall k | 0 <= k < |entries| :: Classify(entries[k].stmt) != Skipped && WellFormed(entries[k].stmt)
  }

  /** The entries can be handed to a replacement loop over a body of length `n`. */
  predicate Swappable(n: nat, entries: seq<Entry>) {
    Queryable(entries) && forall k | 0 <= k < |entries| :: entries[k].pos < n
  }

  /** One replacement loop as a function: in list order, every entry whose base
      the analysis reports always null is swapped for a `nop` in its slot. */
  function SwapAlwaysNull(body: seq<Stmt>, entries: seq<Entry>, alwaysNullBefore: (nat, Immediate) -> bool): (r: seq<Stmt>)
    requires Swappable(|body|, entries)
    ensures |r| == |body|
    decreases |entries|
  {
    if entries == [] then body
    else
      var n := |entries| - 1;
      var t := SwapAlwaysNull(body, entries[..n], alwaysNullBefore);
      var e := entries[n];
      if alwaysNullBefore(e.pos, Query(e.stmt)) then t[e.pos := NopStmt] else t
  }

  /** Some entry of the list sits at position `j` and is reported always null. */
  ghost predicate Flagged(entries: seq<Entry>, j: nat, alwaysNullBefore: (nat, Immediate) -> bool)
    requires Queryable(entries)
  {
    exists k | 0 <= k < |entries| :: entries[k].pos == j && alwaysNullBefore(j, Query(entries[k].stmt))
  }

  /** The statement at position `j` after the pass: a statement the pass
      collects is replaced by a `nop` when the analysis reports its base always
      null before it; every other statement stays. */
  function Rewritten(body: seq<Stmt>, j: nat, alwaysNullBefore: (nat, Immediate) -> bool): Stmt
    requires j < |body| && WellFormed(body[j])
  {
    if Classify(body[j]) != Skipped && alwaysNullBefore(j, Query(body[j])) then NopStmt else body[j]
  }

  /** The effect of the whole pass, position by position, on the original body. */
  function Transformed(body: seq<Stmt>, alwaysNullBefore: (nat, Immediate) -> bool): (r: seq<Stmt>)
    requires WellFormedBody(body)
    ensures |r| == |body|
    // a statement containing an array reference is replaced iff its array base is always null
    ensures forall j | 0 <= j < |body| && body[j].ContainsArrayRef() ::
      r[j] == if alwaysNullBefore(j, AsImmediate(body[j].GetArrayRefBase())) then NopStmt else body[j]
    // an assignment from `lengthof b` without array reference is replaced iff `b` is always null
    ensures forall j | 0 <= j < |body| && !body[j].ContainsArrayRef() && body[j].IsAssign() && body[j].GetRightOp().LengthExpr? ::
      r[j] == if alwaysNullBefore(j, AsImmediate(body[j].GetRightOp().op)) then NopStmt else body[j]
    // every other statement keeps its slot
    ensures forall j | 0 <= j < |body| && !body[j].ContainsArrayRef() && !(body[j].IsAssign() && body[j].GetRightOp().LengthExpr?) ::
      r[j] == body[j]
    ensures WellFormedBody(r)
  {
    seq(|body|, j requires 0 <= j < |body| => Rewritten(body, j, alwaysNullBefore))
  }

  // ---------------------------------------------------------------------------
  // Lemmas about the collected lists

  /** Every statement of category `c` is in the list of category `c`. */
  lemma {:induction false} CollectedComplete(body: seq<Stmt>, c: Category, i: nat)
    requires i < |body|
    ensures Classify(body[i]) == c <==> i in Positions(Collected(body, c))
    decreases |body|
  {
    var n := |body| - 1;
    var l := Collected(body[..n], c);
    var tail := if Classify(body[n]) == c then [Entry(n, body[n])] else [];
    assert Collected(body, c) == l + tail;
    assert Positions(l + tail) == Positions(l) + Positions(tail) by {
      forall k | 0 <= k < |l + tail| ensures (l + tail)[k].pos in Positions(l) + Positions(tail) {
        if k < |l| { assert (l + tail)[k] == l[k]; } else { assert (l + tail)[k] == tail[k - |l|]; }
      }
      forall k | 0 <= k < |l| ensures l[k].pos in Positions(l + tail) { assert (l + tail)[k] == l[k]; }
      forall k | 0 <= k < |tail| ensures tail[k].pos in Positions(l + tail) { assert (l + tail)[|l| + k] == tail[k]; }
    }
    if i < n {
      CollectedComplete(body[..n], c, i);
      assert body[..n][i] == body[i];
    } else {
      assert i !in Positions(l);
      assert i in Positions(tail) <==> Classify(body[n]) == c by {
        if Classify(body[n]) == c { assert tail[0].pos == i; }
      }
    }
  }

  /** The two lists never share a statement. */
  lemma CategoriesExclusive(body: seq<Stmt>)
    ensures Positions(Collected(body, ArrayRefs)) !! Positions(Collected(body, LengthExprs))
  {
  }

  /** A collected list holds an entry at `j`, flagged, iff the statement at `j`
      has the list's category and its base is reported always null. */
  lemma CollectedFlagged(body: seq<Stmt>, c: Category, alwaysNullBefore: (nat, Immediate) -> bool, j: nat)
    requires WellFormedBody(body) && c != Skipped && j < |body|
    ensures Flagged(Collected(body, c), j, alwaysNullBefore)
        <==> Classify(body[j]) == c && alwaysNullBefore(j, Query(body[j]))
  {
    var l := Collected(body, c);
    CollectedComplete(body, c, j);
    if Classify(body[j]) == c {
      var k :| 0 <= k < |l| && l[k].pos == j;
      assert l[k].stmt == body[j];
    }
  }

  /** A statement that contains an array reference and is also an assignment
      from `lengthof op` goes only to the array-reference list, so only its
      array base is ever asked about. */
  lemma ArrayRefWinsOverLength(body: seq<Stmt>, alwaysNullBefore: (nat, Immediate) -> bool, j: nat, b: Value, op: Value)
    requires WellFormedBody(body) && j < |body| && body[j] == ArrayRefStmt(b, Some(LengthExpr(op)))
    ensures j in Positions(Collected(body, ArrayRefs))
    ensures j !in Positions(Collected(body, LengthExprs))
    ensures Transformed(body, alwaysNullBefore)[j] == if alwaysNullBefore(j, AsImmediate(b)) then NopStmt else body[j]
  {
    CollectedComplete(body, ArrayRefs, j);
    CollectedComplete(body, LengthExprs, j);
  }

  // ---------------------------------------------------------------------------
  // Lemmas about the replacement loops

  /** A replacement loop changes exactly the flagged slots, each into a `nop`. */
  lemma {:induction false} SwapAlwaysNullAt(body: seq<Stmt>, entries: seq<Entry>, alwaysNullBefore: (nat, Immediate) -> bool, j: nat)
    requires Swappable(|body|, entries) && j < |body|
    ensures SwapAlwaysNull(body, entries, alwaysNullBefore)[j]
         == if Flagged(entries, j, alwaysNullBefore) then NopStmt else body[j]
    decreases |entries|
  {
    if entries != [] {
      var n := |entries| - 1;
      var init := entries[..n];
      SwapAlwaysNullAt(body, init, alwaysNullBefore, j);
      if Flagged(init, j, alwaysNullBefore) {
        var k :| 0 <= k < |init| && init[k].pos == j && alwaysNullBefore(j, Query(init[k].stmt));
        assert entries[k] == init[k];
      }
      if Flagged(entries, j, alwaysNullBefore) {
        var k :| 0 <= k < |entries| && entries[k].pos == j && alwaysNullBefore(j, Query(entries[k].stmt));
        if k < n { assert init[k] == entries[k]; }
      }
    }
  }

  /** Both replacement loops together, in the order the pass runs them or in
      the other order, give the position-by-position effect `Transformed`. */
  lemma SwapLoopsYieldTransformed(body: seq<Stmt>, alwaysNullBefore: (nat, Immediate) -> bool)
    requires WellFormedBody(body)
    ensures SwapAlwaysNull(SwapAlwaysNull(body, Collected(body, ArrayRefs), alwaysNullBefore),
                           Collected(body, LengthExprs), alwaysNullBefore)
         == Transformed(body, alwaysNullBefore)
    ensures SwapAlwaysNull(SwapAlwaysNull(body, Collected(body, LengthExprs), alwaysNullBefore),
                           Collected(body, ArrayRefs), alwaysNullBefore)
         == Transformed(body, alwaysNullBefore)
  {
    var a, l := Collected(body, ArrayRefs), Collected(body, LengthExprs);
    var mid1, mid2 := SwapAlwaysNull(body, a, alwaysNullBefore), SwapAlwaysNull(body, l, alwaysNullBefore);
    var r1, r2 := SwapAlwaysNull(mid1, l, alwaysNullBefore), SwapAlwaysNull(mid2, a, alwaysNullBefore);
    var t := Transformed(body, alwaysNullBefore);
    forall j | 0 <= j < |body| ensures r1[j] == t[j] && r2[j] == t[j] {
      SwapAlwaysNullAt(body, a, alwaysNullBefore, j);
      SwapAlwaysNullAt(body, l, alwaysNullBefore, j);
      SwapAlwaysNullAt(mid1, l, alwaysNullBefore, j);
      SwapAlwaysNullAt(mid2, a, alwaysNullBefore, j);
      CollectedFlagged(body, ArrayRefs, alwaysNullBefore, j);
      CollectedFlagged(body, LengthExprs, alwaysNullBefore, j);
      assert t[j] == Rewritten(body, j, alwaysNullBefore);
    }
  }

  // ---------------------------------------------------------------------------
  // Re-applying the pass

  /** On its own output, with the same answers from the analysis, the pass
      collects exactly the statements it left in place. */
  lemma RerunCollectsUnflagged(body: seq<Stmt>, alwaysNullBefore: (nat, Immediate) -> bool, c: Category, j: nat)
    requires WellFormedBody(body) && c != Skipped && j < |body|
    ensures j in Positions(Collected(Transformed(body, alwaysNullBefore), c))
        <==> Classify(body[j]) == c && !alwaysNullBefore(j, Query(body[j]))
  {
    var t := Transformed(body, alwaysNullBefore);
    CollectedComplete(t, c, j);
    assert t[j] == Rewritten(body, j, alwaysNullBefore);
  }

  /** With the same answers from the analysis, a second run changes nothing. */
  lemma TransformedIdempotent(body: seq<Stmt>, alwaysNullBefore: (nat, Immediate) -> bool)
    requires WellFormedBody(body)
    ensures Transformed(Transformed(body, alwaysNullBefore), alwaysNullBefore) == Transformed(body, alwaysNullBefore)
  {
  }

  // ---------------------------------------------------------------------------
  // The pass

  /** The collection loop: one pass over the body, in order. */
  method Collect(body: array<Stmt>) returns (arrayRefs: seq<Entry>, lengthExprs: seq<Entry>)
    ensures arrayRefs == Collected(body[..], ArrayRefs)
    ensures lengthExprs == Collected(body[..], LengthExprs)
  {
    arrayRefs, lengthExprs := [], [];
    for i := 0 to body.Length
      invariant arrayRefs == Collected(body[..i], ArrayRefs)
      invariant lengthExprs == Collected(body[..i], LengthExprs)
    {
      assert body[..i + 1][..i] == body[..i];
      var s := body[i];
      if s.ContainsArrayRef() {
        arrayRefs := arrayRefs + [Entry(i, s)];
      } else if s.IsAssign() {
        var rightOp := s.GetRightOp();
        if rightOp.LengthExpr? {
          lengthExprs := lengthExprs + [Entry(i, s)];
        }
      }
    }
    assert body[..body.Length] == body[..];
  }

  /** PatchingChain.swapWith: `incoming` takes the slot of `out`, which must be
      in the chain; no other slot moves. */
  method SwapWith(body: array<Stmt>, out: Entry, incoming: Stmt)
    requires out.pos < body.Length && body[out.pos] == out.stmt
    modifies body
    ensures body[..] == old(body[..])[out.pos := incoming]
  {
    body[out.pos] := incoming;
  }

  /** The array-reference loop: asks about each statement's array base. */
  method SwapArrayRefs(body: array<Stmt>, arrayRefs: seq<Entry>, alwaysNullBefore: (nat, Immediate) -> bool)
    requires InSlots(body[..], arrayRefs) && Increasing(arrayRefs) && Queryable(arrayRefs)
    requires forall k | 0 <= k < |arrayRefs| :: arrayRefs[k].stmt.ContainsArrayRef()
    modifies body
    ensures body[..] == SwapAlwaysNull(old(body[..]), arrayRefs, alwaysNullBefore)
  {
    ghost var before := body[..];
    for k := 0 to |arrayRefs|
      invariant body[..] == SwapAlwaysNull(before, arrayRefs[..k], alwaysNullBefore)
    {
      var s := arrayRefs[k];
      var base := s.stmt.GetArrayRefBase();
      var isAlwaysNullBefore := alwaysNullBefore(s.pos, AsImmediate(base));
      assert arrayRefs[..k + 1][..k] == arrayRefs[..k];
      if isAlwaysNullBefore {
        // earlier entries sit at earlier slots, so `s` is still in the chain
        SwapAlwaysNullAt(before, arrayRefs[..k], alwaysNullBefore, s.pos);
        SwapWith(body, s, NopStmt);
      }
    }
    assert arrayRefs[..|arrayRefs|] == arrayRefs;
  }

  /** The length-expression loop: asks about each assignment's length operand. */
  method SwapLengthExprs(body: array<Stmt>, lengthExprs: seq<Entry>, alwaysNullBefore: (nat, Immediate) -> bool)
    requires InSlots(body[..], lengthExprs) && Increasing(lengthExprs) && Queryable(lengthExprs)
    requires forall k | 0 <= k < |lengthExprs| :: Classify(lengthExprs[k].stmt) == LengthExprs
    modifies body
    ensures body[..] == SwapAlwaysNull(old(body[..]), lengthExprs, alwaysNullBefore)
  {
    ghost var before := body[..];
    for k := 0 to |lengthExprs|
      invariant body[..] == SwapAlwaysNull(before, lengthExprs[..k], alwaysNullBefore)
    {
      var s := lengthExprs[k];
      var base := s.stmt.GetRightOp().op;
      var isAlwaysNullBefore := alwaysNullBefore(s.pos, AsImmediate(base));
      assert lengthExprs[..k + 1][..k] == lengthExprs[..k];
      if isAlwaysNullBefore {
        // earlier entries sit at earlier slots, so `s` is still in the chain
        SwapAlwaysNullAt(before, lengthExprs[..k], alwaysNullBefore, s.pos);
        SwapWith(body, s, NopStmt);
      }
    }
    assert lengthExprs[..|lengthExprs|] == lengthExprs;
  }

  /** DexNullArrayRefTransformer.internalTransform. */
  method InternalTransform(body: array<Stmt>, alwaysNullBefore: (nat, Immediate) -> bool)
    requires WellFormedBody(body[..])
    modifies body
    ensures body[..] == Transformed(old(body[..]), alwaysNullBefore)
  {
    ghost var original := body[..];
    var arrayRefs, lengthExprs := Collect(body);
    SwapArrayRefs(body, arrayRefs, alwaysNullBefore);
    // the array-reference loop leaves every length assignment in its slot
    forall k | 0 <= k < |lengthExprs| ensures body[lengthExprs[k].pos] == lengthExprs[k].stmt {
      SwapAlwaysNullAt(original, arrayRefs, alwaysNullBefore, lengthExprs[k].pos);
    }
    SwapLengthExprs(body, lengthExprs, alwaysNullBefore);
    SwapLoopsYieldTransformed(original, alwaysNullBefore);
  }
}
