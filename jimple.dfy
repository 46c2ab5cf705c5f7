/**
 * The fragment of Soot's Jimple intermediate representation that the
 * null-array-reference pass looks at: statements, the operands that can be
 * the base of an array access, and the right-hand sides of assignments.
 *
 * Soot's statement classes (JAssignStmt, JNopStmt, ...) are not part of this
 * model. A statement is described only by what the pass asks of it:
 * whether it contains an array reference (and that reference's base),
 * whether it is an assignment, and what its right-hand side is.
 */
module Jimple {

  datatype Option<+T> = None | Some(value: T)

  /** Operands. Locals and constants are Immediates; NonImmediate stands for
      every value that needs heap traversal to inspect (a field reference, ...). */
  datatype Value =
    | Local(id: nat)
    | NullConstant
    | IntConstant(n: int)
    | NonImmediate
  {
    predicate IsImmediate() {
      !NonImmediate?
    }
  }

  /** The values the nullness analysis can be asked about. */
  type Immediate = v: Value | v.IsImmediate() witness NullConstant

  /** The cast `(Immediate) v`: defined only where it succeeds. */
  function AsImmediate(v: Value): Immediate
    requires v.IsImmediate()
  {
    v
  }

  /** The right-hand side of an assignment, as far as the pass distinguishes it:
      an array-length expression `lengthof op`, or anything else. */
  datatype Rhs =
    | LengthExpr(op: Value)
    | OtherRhs

  datatype Stmt =
      /** `nop` */
    | NopStmt
      /** A statement that contains an array reference `arrayBase[index]`.
          `assignRhs` is `Some(rhs)` when the statement is an assignment with
          right-hand side `rhs`, `None` otherwise. */
    | ArrayRefStmt(arrayBase: Value, assignRhs: Option<Rhs>)
      /** An assignment `x = right` that contains no array reference. */
    | AssignStmt(right: Rhs)
      /** Every other statement: invocations, branches, returns, throws, ... */
    | OtherStmt
  {
    /** Stmt.containsArrayRef() */
    predicate ContainsArrayRef() {
      ArrayRefStmt?
    }

    /** Stmt.getArrayRef().getBase() */
    function GetArrayRefBase(): Value
      requires ContainsArrayRef()
    {
      arrayBase
    }

    /** `s instanceof AssignStmt` */
    predicate IsAssign() {
      AssignStmt? || (ArrayRefStmt? && assignRhs.Some?)
    }

    /** AssignStmt.getRightOp() */
    function GetRightOp(): Rhs
      requires IsAssign()
    {
      if AssignStmt? then right else assignRhs.value
    }
  }
}
