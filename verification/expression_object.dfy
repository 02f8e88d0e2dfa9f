/**
 * The Expression object: three public fields that the prepend operations
 * overwrite in place, so that the receiver becomes the join of the new
 * condition and what it held before.
 */
module ExpressionObject {
  import opened Wrappers
  import opened Enums
  import opened Clause
  import opened Combinators

  class Expression {
    var left: Term
    var op: Operator
    var right: Term

    /** The condition the fields currently hold. */
    function Value(): (e: Expr)
      reads this
      ensures e.left == left && e.op == op && e.right == right
    {
      Expr(left, op, right)
    }

    /** Both terms null and the operator at the first enumeration value. */
    constructor ()
      ensures Value() == Expr(Null, And, Null)
    {
      left, op, right := Null, And, Null;
    }

    constructor Make(left: Term, oper: Operator, right: Term)
      ensures Value() == Expr(left, oper, right)
    {
      this.left, this.op, this.right := left, oper, right;
    }

    /**
     * PrependAnd(Expression): a null argument faults and leaves the fields
     * alone; otherwise the fields become the AND of prepend and a copy of
     * the old fields. The receiver is not prepended to itself: that would
     * make it its own left term, a cycle the compiler never finishes.
     */
    method PrependAnd(prepend: Expression?) returns (thrown: Outcome<()>)
      requires prepend != this
      modifies this
      ensures prepend == null ==> thrown == Throws(ArgumentNull("prepend")) && Value() == old(Value())
      ensures prepend != null ==> thrown == Ok(()) && Value() == Joined(old(prepend.Value()), And, old(Value()))
    {
      thrown := Prepend(prepend, And);
    }

    method PrependOr(prepend: Expression?) returns (thrown: Outcome<()>)
      requires prepend != this
      modifies this
      ensures prepend == null ==> thrown == Throws(ArgumentNull("prepend")) && Value() == old(Value())
      ensures prepend != null ==> thrown == Ok(()) && Value() == Joined(old(prepend.Value()), Or, old(Value()))
    {
      thrown := Prepend(prepend, Or);
    }

    /** The shared body of PrependAnd and PrependOr. */
    method Prepend(prepend: Expression?, junction: Operator) returns (thrown: Outcome<()>)
      requires prepend != this
      modifies this
      ensures prepend == null ==> thrown == Throws(ArgumentNull("prepend")) && Value() == old(Value())
      ensures prepend != null ==> thrown == Ok(()) && Value() == Joined(old(prepend.Value()), junction, old(Value()))
    {
      if prepend == null {
        return Throws(ArgumentNull("prepend"));
      }
      var orig := new Expression.Make(left, op, right);
      var e := PrependClause(Some(prepend.Value()), Some(orig.Value()), junction);
      left := e.value.left;
      op := e.value.op;
      right := e.value.right;
      thrown := Ok(());
    }

    /** PrependAnd(left, oper, right): builds the condition, then prepends it with AND. */
    method PrependAndTerms(l: Term, oper: Operator, r: Term)
      modifies this
      ensures Value() == Joined(Expr(l, oper, r), And, old(Value()))
    {
      var e := new Expression.Make(l, oper, r);
      var _ := PrependAnd(e);
    }

    method PrependOrTerms(l: Term, oper: Operator, r: Term)
      modifies this
      ensures Value() == Joined(Expr(l, oper, r), Or, old(Value()))
    {
      var e := new Expression.Make(l, oper, r);
      var _ := PrependOr(e);
    }
  }

  /**
   * After a prepend, the receiver's WHERE clause is the prepended condition's
   * clause and the old clause, joined by the junction inside one more pair of
   * parentheses, and it compiles even where the old clause did not.
   */
  lemma PrependedText(prepend: Expr, junction: Operator, before: Expr)
    requires IsJunction(junction) && Supported(prepend) && Supported(before)
    ensures Compile(Joined(prepend, junction, before)).Some?
    ensures Compile(Joined(prepend, junction, before))
            == Some("(" + OrEmpty(Compile(prepend)) + " " + Symbol(junction) + " " + OrEmpty(Compile(before)) + ")")
  {
    JoinedText(prepend, junction, before);
  }
}
