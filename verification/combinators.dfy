/**
 * Building larger conditions out of smaller ones: joining two conditions
 * with AND or OR, and folding a list of conditions into a right-nested chain.
 * A null argument is a fault, as the exceptions of the source are.
 */
module Combinators {
  import opened Wrappers
  import opened Enums
  import opened Clause

  /** The exceptions the operations raise. */
  datatype Fault =
    | ArgumentNull(param: string)
    | NullReference

  datatype Outcome<T> = Ok(value: T) | Throws(fault: Fault)

  predicate IsJunction(op: Operator) {
    op == And || op == Or
  }

  /** The new node that joins prepend to original: both become nested terms. */
  function Joined(prepend: Expr, junction: Operator, original: Expr): Expr {
    Expr(Nested(prepend), junction, Nested(original))
  }

  /** The two checks of PrependAndClause and PrependOrClause, prepend first. */
  function PrependClause(prepend: Option<Expr>, original: Option<Expr>, junction: Operator): (r: Outcome<Expr>)
    ensures prepend.None? ==> r == Throws(ArgumentNull("prepend"))
    ensures prepend.Some? && original.None? ==> r == Throws(ArgumentNull("original"))
    ensures r.Ok? <==> prepend.Some? && original.Some?
    ensures r.Ok? ==> r.value.op == junction && Parts(r.value) == Some((prepend.value, original.value))
  {
    if prepend.None? then Throws(ArgumentNull("prepend"))
    else if original.None? then Throws(ArgumentNull("original"))
    else Ok(Joined(prepend.value, junction, original.value))
  }

  function PrependAndClause(prepend: Option<Expr>, original: Option<Expr>): (r: Outcome<Expr>)
    ensures r.Ok? <==> prepend.Some? && original.Some?
    ensures r.Ok? ==> r.value.op == And && Parts(r.value) == Some((prepend.value, original.value))
  {
    PrependClause(prepend, original, And)
  }

  function PrependOrClause(prepend: Option<Expr>, original: Option<Expr>): (r: Outcome<Expr>)
    ensures r.Ok? <==> prepend.Some? && original.Some?
    ensures r.Ok? ==> r.value.op == Or && Parts(r.value) == Some((prepend.value, original.value))
  {
    PrependClause(prepend, original, Or)
  }

  /** The two conditions a node joins, when both its terms are conditions. */
  function Parts(e: Expr): Option<(Expr, Expr)> {
    if e.left.Nested? && e.right.Nested? then Some((e.left.e, e.right.e)) else None
  }

  /**
   * The WHERE-clause text of a joined pair is each part's text, side by side,
   * separated by the junction, inside one more pair of parentheses; it never
   * fails, even where a part does.
   */
  lemma JoinedText(prepend: Expr, junction: Operator, original: Expr)
    requires IsJunction(junction) && Supported(prepend) && Supported(original)
    ensures Supported(Joined(prepend, junction, original))
    ensures Compile(Joined(prepend, junction, original))
            == Some("(" + OrEmpty(Compile(prepend)) + " " + Symbol(junction) + " " + OrEmpty(Compile(original)) + ")")
  {
    Junction(prepend, junction, original);
  }

  // ---------------------------------------------------------------------
  // Folding a list.

  /**
   * The fold of ListToNestedAndExpression and ListToNestedOrExpression on a
   * non-null list: nothing for the empty list, the single element itself,
   * or the first element joined to the fold of the rest. A null first
   * element of a longer list is dereferenced and faults.
   */
  function Nest(xs: seq<Option<Expr>>, junction: Operator): Outcome<Option<Expr>>
    decreases |xs|
  {
    if |xs| == 0 then Ok(None)
    else if |xs| == 1 then Ok(xs[0])
    else if xs[0].None? then Throws(NullReference)
    else
      match Nest(xs[1..], junction)
      case Throws(f) => Throws(f)
      case Ok(rest) => Ok(Some(Expr(Nested(xs[0].value), junction, if rest.Some? then Nested(rest.value) else Null)))
  }

  function NestList(exprList: Option<seq<Option<Expr>>>, junction: Operator): Outcome<Option<Expr>> {
    if exprList.None? then Throws(ArgumentNull("exprList")) else Nest(exprList.value, junction)
  }

  /** The fold faults exactly when an element other than the last is null. */
  lemma {:induction false} NestFaults(xs: seq<Option<Expr>>, junction: Operator)
    ensures Nest(xs, junction).Throws? <==> exists i :: 0 <= i < |xs| - 1 && xs[i].None?
    ensures Nest(xs, junction).Throws? ==> Nest(xs, junction).fault == NullReference
    decreases |xs|
  {
    if |xs| >= 2 && xs[0].Some? {
      NestFaults(xs[1..], junction);
      if exists i :: 0 <= i < |xs| - 1 && xs[i].None? {
        var i :| 0 <= i < |xs| - 1 && xs[i].None?;
        assert xs[1..][i - 1].None?;
      }
      if exists i :: 0 <= i < |xs[1..]| - 1 && xs[1..][i].None? {
        var i :| 0 <= i < |xs[1..]| - 1 && xs[1..][i].None?;
        assert xs[i + 1].None?;
      }
    }
  }

  predicate NoNulls(xs: seq<Option<Expr>>) {
    forall i | 0 <= i < |xs| :: xs[i].Some?
  }

  /** The first n conditions along the right spine of a chain. */
  function Unchain(e: Expr, n: nat): seq<Expr>
    requires n >= 1
    decreases n
  {
    if n == 1 then [e]
    else if e.left.Nested? && e.right.Nested? then [e.left.e] + Unchain(e.right.e, n - 1)
    else [e]
  }

  function Values(xs: seq<Option<Expr>>): (r: seq<Expr>)
    requires NoNulls(xs)
    ensures |r| == |xs| && forall i | 0 <= i < |xs| :: r[i] == xs[i].value
    decreases |xs|
  {
    if xs == [] then [] else [xs[0].value] + Values(xs[1..])
  }

  /** A list without nulls folds into a chain whose spine gives the list back. */
  lemma {:induction false} NestUnchains(xs: seq<Option<Expr>>, junction: Operator)
    requires |xs| >= 1 && NoNulls(xs)
    ensures Nest(xs, junction).Ok? && Nest(xs, junction).value.Some?
    ensures Unchain(Nest(xs, junction).value.value, |xs|) == Values(xs)
    decreases |xs|
  {
    if |xs| >= 2 {
      var rest := xs[1..];
      assert NoNulls(rest) by {
        forall i | 0 <= i < |rest| ensures rest[i].Some? {
          assert rest[i] == xs[i + 1];
        }
      }
      NestUnchains(rest, junction);
      assert Values(xs) == [xs[0].value] + Values(rest);
    }
  }

  /** Texts joined from the right: "(t0 J (t1 J ... tn))", the last one bare. */
  function ChainText(ts: seq<string>, sym: string): string
    requires |ts| >= 1
    decreases |ts|
  {
    if |ts| == 1 then ts[0] else "(" + ts[0] + " " + sym + " " + ChainText(ts[1..], sym) + ")"
  }

  predicate AllSupported(xs: seq<Expr>) {
    forall i | 0 <= i < |xs| :: Supported(xs[i])
  }

  /** Each condition's own text, "" where it does not compile. */
  function Texts(xs: seq<Expr>): (r: seq<string>)
    requires AllSupported(xs)
    ensures |r| == |xs|
    decreases |xs|
  {
    if xs == [] then [] else [OrEmpty(Compile(xs[0]))] + Texts(xs[1..])
  }

  /**
   * A fold of two or more conditions always compiles, to the conditions'
   * own texts joined from the right by the junction.
   */
  lemma {:induction false} NestText(xs: seq<Option<Expr>>, junction: Operator)
    requires |xs| >= 2 && NoNulls(xs) && IsJunction(junction) && AllSupported(Values(xs))
    ensures Nest(xs, junction).Ok? && Nest(xs, junction).value.Some?
    ensures Supported(Nest(xs, junction).value.value)
    ensures Compile(Nest(xs, junction).value.value) == Some(ChainText(Texts(Values(xs)), Symbol(junction)))
    decreases |xs|
  {
    var rest := xs[1..];
    assert NoNulls(rest) by {
      forall i | 0 <= i < |rest| ensures rest[i].Some? {
        assert rest[i] == xs[i + 1];
      }
    }
    assert Values(xs) == [xs[0].value] + Values(rest);
    assert AllSupported(Values(rest)) by {
      forall i | 0 <= i < |rest| ensures Supported(Values(rest)[i]) {
        assert Values(rest)[i] == Values(xs)[i + 1];
      }
    }
    assert Supported(xs[0].value) by {
      assert Values(xs)[0] == xs[0].value;
    }
    NestUnchains(xs, junction);
    var head := xs[0].value;
    if |xs| == 2 {
      assert rest == [xs[1]];
      var last := xs[1].value;
      assert Supported(last) by {
        assert Values(xs)[1] == last;
      }
      assert Nest(xs, junction) == Ok(Some(Joined(head, junction, last)));
      JoinedText(head, junction, last);
      assert Texts(Values(rest)) == [OrEmpty(Compile(last))];
    } else {
      NestText(rest, junction);
      var tail := Nest(rest, junction).value.value;
      assert Nest(xs, junction) == Ok(Some(Joined(head, junction, tail)));
      JoinedText(head, junction, tail);
      assert Texts(Values(xs))[1..] == Texts(Values(rest));
    }
  }

  /**
   * ListToNestedAndExpression and ListToNestedOrExpression: a foreach with a
   * counter copies the first element and collects the rest, then the rest
   * is folded by a recursive call.
   */
  method ListToNested(exprList: Option<seq<Option<Expr>>>, junction: Operator) returns (r: Outcome<Option<Expr>>)
    ensures r == NestList(exprList, junction)
    decreases if exprList.Some? then |exprList.value| else 0
  {
    if exprList.None? {
      return Throws(ArgumentNull("exprList"));
    }
    var list := exprList.value;
    if |list| < 1 {
      return Ok(None);
    }
    if |list| == 1 {
      return Ok(list[0]);
    }
    var evaluated := 0;
    var left: Expr := Expr(Null, And, Null);
    var remainder: seq<Option<Expr>> := [];
    while evaluated < |list|
      invariant 0 <= evaluated <= |list|
      invariant evaluated >= 1 ==> list[0].Some? && left == list[0].value
      invariant remainder == if evaluated == 0 then [] else list[1..evaluated]
    {
      var curr := list[evaluated];
      if evaluated == 0 {
        if curr.None? {
          return Throws(NullReference);
        }
        left := Expr(curr.value.left, curr.value.op, curr.value.right);
      } else {
        remainder := remainder + [curr];
      }
      evaluated := evaluated + 1;
    }
    assert remainder == list[1..];
    var right := ListToNested(Some(remainder), junction);
    match right
    case Throws(f) => r := Throws(f);
    case Ok(rest) => r := Ok(Some(Expr(Nested(left), junction, if rest.Some? then Nested(rest.value) else Null)));
  }

  method ListToNestedAndExpression(exprList: Option<seq<Option<Expr>>>) returns (r: Outcome<Option<Expr>>)
    ensures r == NestList(exprList, And)
  {
    r := ListToNested(exprList, And);
  }

  method ListToNestedOrExpression(exprList: Option<seq<Option<Expr>>>) returns (r: Outcome<Option<Expr>>)
    ensures r == NestList(exprList, Or)
  {
    r := ListToNested(exprList, Or);
  }

  /** The chain of three conditions, spelled out. */
  lemma ThreeChain(a: Expr, b: Expr, c: Expr, junction: Operator)
    ensures Nest([Some(a), Some(b), Some(c)], junction) == Ok(Some(Joined(a, junction, Joined(b, junction, c))))
  {
    var xs := [Some(a), Some(b), Some(c)];
    assert xs[1..] == [Some(b), Some(c)];
    assert xs[1..][1..] == [Some(c)];
    assert Nest(xs[1..][1..], junction) == Ok(Some(c));
    assert Nest(xs[1..], junction) == Ok(Some(Joined(b, junction, c)));
  }

  /** A null last element is kept as a null right term, and then the chain does not compile. */
  lemma NullLastElement(a: Expr, junction: Operator)
    requires IsJunction(junction) && Supported(a)
    ensures Nest([Some(a), None], junction) == Ok(Some(Expr(Nested(a), junction, Null)))
    ensures Compile(Expr(Nested(a), junction, Null)).None?
  {
    var xs: seq<Option<Expr>> := [Some(a), None];
    assert xs[1..] == [None];
    assert Nest(xs[1..], junction) == Ok(None);
  }
}
