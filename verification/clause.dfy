/**
 * The expression tree and its compiler to the text of a SQL WHERE clause.
 * A condition is a term, an operator and a term; a term may itself be a
 * condition, so conditions nest to any depth.
 */
module Clause {
  import opened Wrappers
  import opened Enums
  import opened Sanitizer

  /** An element of a list right term: any object by its text form, or a timestamp. */
  datatype Item =
    | Plain(text: string)
    | Stamp(stamp: string)

  /**
   * What a left or right slot can hold. A string is a column name on the
   * left and a value on the right; any other object is carried by its
   * ToString() text; a DateTime by the text the timestamp formatter gives it;
   * a List<T> by its elements and by the text its ToString() gives, which is
   * its runtime type name and so depends on T.
   */
  datatype Term =
    | Null
    | Str(s: string)
    | Obj(text: string)
    | Date(stamp: string)
    | List(typeName: string, items: seq<Item>)
    | Nested(e: Expr)

  datatype Expr = Expr(left: Term, op: Operator, right: Term)

  /** The operators that write a keyword or symbol and then a single right term. */
  predicate IsComparison(op: Operator) {
    match op
    case And | Or | Equals | NotEquals | GreaterThan | GreaterThanOrEqualTo | LessThan | LessThanOrEqualTo => true
    case _ => false
  }

  predicate IsLike(op: Operator) {
    op == Contains || op == ContainsNot
  }

  function Symbol(op: Operator): (r: string)
    requires IsComparison(op)
    ensures r != [] && ' ' !in r && '\'' !in r
  {
    match op
    case And => "AND"
    case Or => "OR"
    case Equals => "="
    case NotEquals => "<>"
    case GreaterThan => ">"
    case GreaterThanOrEqualTo => ">="
    case LessThan => "<"
    case LessThanOrEqualTo => "<="
  }

  /**
   * The trees this model compiles: every Contains/ContainsNot node has a
   * column, not a nested condition, on its left.
   */
  predicate Supported(e: Expr) {
    && (IsLike(e.op) ==> !e.left.Nested?)
    && (e.left.Nested? ==> Supported(e.left.e))
    && (e.right.Nested? ==> Supported(e.right.e))
  }

  /**
   * The shape the root node must have to compile: a column or a condition
   * on the left, and on the right whatever its operator needs.
   */
  predicate RootWellFormed(e: Expr) {
    (e.left.Str? || e.left.Nested?) && RightFits(e.op, e.right)
  }

  /** What each operator needs on its right: nothing, a list, a string, or anything but null. */
  predicate RightFits(op: Operator, right: Term) {
    match op
    case IsNull | IsNotNull => true
    case In | NotIn => right.List?
    case Contains | ContainsNot => right.Str?
    case _ => !right.Null?
  }

  /** String concatenation in the source turns a null operand into "". */
  function OrEmpty(o: Option<string>): string {
    if o.Some? then o.value else ""
  }

  function Quoted(text: string): string {
    "'" + text + "'"
  }

  /**
   * One list element, a non-timestamp cleaned by clean; only a
   * non-timestamp after the first is preceded by a comma.
   */
  function ItemText(item: Item, first: bool, clean: string -> string): string {
    match item
    case Stamp(stamp) => Quoted(stamp)
    case Plain(text) => if first then Quoted(clean(text)) else "," + Quoted(clean(text))
  }

  /** The elements of an IN list from the front, the first one marked as such. */
  function ItemsText(items: seq<Item>, first: bool, clean: string -> string): string
    decreases |items|
  {
    if items == [] then ""
    else ItemText(items[0], first, clean) + ItemsText(items[1..], false, clean)
  }

  /** The IN list as the compiler writes it: every non-timestamp sanitised. */
  function InListText(items: seq<Item>): string {
    ItemsText(items, true, Sanitized)
  }

  /** The three-way LIKE union of Contains/ContainsNot, column and value sanitised at each use. */
  function LikeUnion(column: string, keyword: string, value: string): string {
    var c, v := Sanitized(column), Sanitized(value);
    "(" + c + " " + keyword + " '" + v + "%'"
    + "OR " + c + " " + keyword + " '%" + v + "%'"
    + "OR " + c + " " + keyword + " '%" + v + "')"
  }

  /** The right term of a comparison-family operator. */
  function RightText(t: Term): string
    requires !t.Null? && (t.Nested? ==> Supported(t.e))
    decreases t, 2
  {
    match t
    case Nested(sub) => OrEmpty(Compile(sub))
    case Date(stamp) => Quoted(stamp)
    case Str(s) => Quoted(Sanitized(s))
    case Obj(text) => Quoted(Sanitized(text))
    case List(typeName, _) => Quoted(Sanitized(typeName))
  }

  /**
   * The WHERE-clause text of e, or None where the source returns null.
   * Failure depends on the root node alone: a nested condition that does
   * not compile contributes the empty string to its parent.
   */
  function Compile(e: Expr): (r: Option<string>)
    requires Supported(e)
    ensures r.Some? <==> RootWellFormed(e)
    decreases e, 1
  {
    match Head(e)
    case None => None
    case Some(h) => Tail(e, h)
  }

  /**
   * The opening parenthesis and the left term: a nested condition's text,
   * or the sanitised column except before Contains/ContainsNot; None when
   * the left term is neither.
   */
  function Head(e: Expr): (r: Option<string>)
    requires Supported(e)
    ensures r.Some? <==> e.left.Str? || e.left.Nested?
    decreases e, 0
  {
    match e.left
    case Nested(sub) => Some("(" + OrEmpty(Compile(sub)) + " ")
    case Str(column) => Some("(" + (if IsLike(e.op) then "" else Sanitized(column) + " "))
    case _ => None
  }

  /** What the operator writes after the head h, up to the closing parenthesis. */
  function Tail(e: Expr, h: string): (r: Option<string>)
    requires Supported(e) && (e.left.Str? || e.left.Nested?)
    ensures r.Some? <==> RightFits(e.op, e.right)
    decreases e, 0
  {
    match e.op
    case IsNull => Some(h + " IS NULL)")
    case IsNotNull => Some(h + " IS NOT NULL)")
    case In =>
      if e.right.List? then Some(h + " IN (" + InListText(e.right.items) + "))") else None
    case NotIn =>
      if e.right.List? then Some(h + " NOT IN (" + InListText(e.right.items) + "))") else None
    case Contains =>
      if e.right.Str? then Some(h + LikeUnion(e.left.s, "LIKE", e.right.s) + ")") else None
    case ContainsNot =>
      if e.right.Str? then Some(h + LikeUnion(e.left.s, "NOT LIKE", e.right.s) + ")") else None
    case _ =>
      if e.right.Null? then None else Some(h + Symbol(e.op) + " " + RightText(e.right) + ")")
  }

  /** The IN-list loop: a counter tells the first element from the rest. */
  method RenderInList(items: seq<Item>) returns (text: string)
    ensures text == InListText(items)
  {
    text := "";
    var added := 0;
    while added < |items|
      invariant 0 <= added <= |items|
      invariant text == ItemsText(items[..added], true, Sanitized)
    {
      var curr := items[added];
      var rendered := RenderItem(curr, added == 0);
      RenderStep(items, added, text, rendered, Sanitized);
      text := text + rendered;
      added := added + 1;
    }
    assert items[..added] == items;
  }

  /** Appending the rendering of the next element extends the list text by one element. */
  lemma RenderStep(items: seq<Item>, added: int, text: string, rendered: string, clean: string -> string)
    requires 0 <= added < |items|
    requires text == ItemsText(items[..added], true, clean) && rendered == ItemText(items[added], added == 0, clean)
    ensures text + rendered == ItemsText(items[..added + 1], true, clean)
  {
    var prefix, item := items[..added], items[added];
    assert |prefix| == added;
    assert items[..added + 1] == prefix + [item];
    ItemsTextAppend(prefix, item, true, clean);
    assert (true && prefix == []) == (added == 0);
  }

  /** One pass of the loop body: a timestamp is written as is, anything else sanitised. */
  method RenderItem(curr: Item, first: bool) returns (rendered: string)
    ensures rendered == ItemText(curr, first, Sanitized)
  {
    if first {
      match curr
      case Stamp(stamp) => rendered := Quoted(stamp);
      case Plain(t) => { var clean := SanitizeString(t); rendered := Quoted(clean); }
    } else {
      match curr
      case Stamp(stamp) => rendered := Quoted(stamp);
      case Plain(t) => { var clean := SanitizeString(t); rendered := "," + Quoted(clean); }
    }
  }

  /** Appending an element to the list appends its text, the first one marked as such. */
  lemma {:induction false} ItemsTextAppend(items: seq<Item>, item: Item, first: bool, clean: string -> string)
    ensures ItemsText(items + [item], first, clean) == ItemsText(items, first, clean) + ItemText(item, first && items == [], clean)
    decreases |items|
  {
    if items == [] {
      assert [item][1..] == [];
      EmptyRight(ItemText(item, first, clean));
      EmptyLeft(ItemText(item, first, clean));
    } else {
      assert (items + [item])[1..] == items[1..] + [item];
      ItemsTextAppend(items[1..], item, false, clean);
      Assoc(ItemText(items[0], first, clean), ItemsText(items[1..], false, clean), ItemText(item, false, clean));
    }
  }

  // ---------------------------------------------------------------------
  // Solver hints: identities of string concatenation that the proofs below
  // need, stated over arbitrary strings so that the verifier checks them
  // without unfolding the sanitiser. They carry no property of the source.

  lemma Assoc(a: string, b: string, c: string)
    ensures a + b + c == a + (b + c)
  {
  }

  lemma EmptyRight(a: string)
    ensures a + "" == a
  {
  }

  lemma EmptyLeft(a: string)
    ensures "" + a == a
  {
  }

  /** A quoted text followed by a tail: its first character and what follows it. */
  lemma QuotedSplit(y: string, tail: string)
    ensures (Quoted(y) + tail)[0] == '\''
    ensures (Quoted(y) + tail)[1..] == y + "'" + tail
  {
    assert Quoted(y) + tail == "'" + (y + "'" + tail);
  }

  /** A comma-led text followed by a tail: its first character and what follows it. */
  lemma CommaSplit(a: string, b: string, c: string)
    ensures ("," + a + b + c)[0] == ','
    ensures ("," + a + b + c)[1..] == a + (b + c)
  {
    assert "," + a + b + c == "," + (a + (b + c));
  }

  lemma MergeGlue(e: string, stamp: string)
    ensures Quoted(e) + Quoted(stamp) + ")" == Quoted(e + ("''" + stamp)) + ")"
  {
  }

  lemma ComparisonGlue(c: string, sym: string, v: string)
    ensures "(" + (c + " ") + sym + " " + Quoted(v) + ")" == "(" + c + " " + sym + " '" + v + "')"
  {
  }

  lemma QuoteParen(v: string)
    ensures v + "'" + ")" == v + "')"
  {
  }

  lemma NullTestGlue(c: string)
    ensures "(" + (c + " ") + " IS NULL)" == "(" + c + "  " + "IS NULL" + ")"
    ensures "(" + (c + " ") + " IS NOT NULL)" == "(" + c + "  " + "IS NOT NULL" + ")"
  {
  }

  lemma InGlue(c: string, list: string)
    ensures "(" + (c + " ") + " IN (" + list + "))" == "(" + c + "  IN (" + list + "))"
    ensures "(" + (c + " ") + " NOT IN (" + list + "))" == "(" + c + "  NOT IN (" + list + "))"
  {
  }

  lemma AbsorbGlue(sym: string, right: string)
    ensures "(" + "" + " " + sym + " " + right + ")" == "( " + sym + " " + right + ")"
  {
  }

  // ---------------------------------------------------------------------
  // What SQL reads back out of the text.

  /**
   * How SQL reads the body of an IN list after its opening parenthesis:
   * quoted literals separated by commas, up to the closing parenthesis,
   * which must end the text.
   */
  function ReadValues(t: string): Option<seq<string>>
    decreases |t|
  {
    if t == [] || t[0] != '\'' then None
    else
      match ReadQuoted(t[1..])
      case None => None
      case Some((v, rest)) => MoreValues(v, rest)
  }

  /** After the literal v: the closing parenthesis, or a comma and further literals. */
  function MoreValues(v: string, rest: string): Option<seq<string>>
    decreases |rest|
  {
    if rest == ")" then Some([v])
    else if rest != [] && rest[0] == ',' then
      match ReadValues(rest[1..])
      case Some(vs) => Some([v] + vs)
      case None => None
    else None
  }

  /** Reading a list that starts with a literal SQL reads as v. */
  lemma ReadFirst(y: string, v: string, tail: string)
    requires ReadQuoted(y + "'" + tail) == Some((v, tail))
    ensures ReadValues(Quoted(y) + tail) == MoreValues(v, tail)
  {
    QuotedSplit(y, tail);
  }

  predicate AllPlain(items: seq<Item>) {
    forall i | 0 <= i < |items| :: items[i].Plain?
  }

  /** The values SQL should see for a list of plain elements. */
  function PlainValues(items: seq<Item>): seq<string>
    requires AllPlain(items)
    decreases |items|
  {
    if items == [] then [] else [CommentStripped(items[0].text)] + PlainValues(items[1..])
  }

  /**
   * An IN list of non-timestamp elements reads back, in order, as the
   * comment-stripped elements: each literal closes where the compiler closed it.
   */
  lemma PlainListReadsBack(items: seq<Item>)
    requires |items| >= 1 && AllPlain(items)
    ensures ReadValues(InListText(items) + ")") == Some(PlainValues(items))
  {
    PlainListReadsBackFrom(items);
    FirstPlainText(items);
    Assoc(Quoted(Sanitized(items[0].text)), ItemsText(items[1..], false, Sanitized), ")");
  }

  lemma {:induction false} PlainListReadsBackFrom(items: seq<Item>)
    requires |items| >= 1 && AllPlain(items)
    ensures ReadValues(Quoted(Sanitized(items[0].text)) + (ItemsText(items[1..], false, Sanitized) + ")"))
            == Some(PlainValues(items))
    decreases |items|
  {
    var x := items[0].text;
    var more := ItemsText(items[1..], false, Sanitized);
    var tail := more + ")";
    SanitizedLiteral(x, tail);
    ReadFirst(Sanitized(x), CommentStripped(x), tail);
    if |items| == 1 {
      assert more == "";
      EmptyLeft(")");
      assert MoreValues(CommentStripped(x), tail) == Some([CommentStripped(x)]);
      assert PlainValues(items[1..]) == [];
      assert PlainValues(items) == [CommentStripped(x)];
    } else {
      var rest := items[1..];
      assert rest[0] == items[1] && rest[1..] == items[2..];
      assert AllPlain(rest) by {
        forall i | 0 <= i < |rest| ensures rest[i].Plain? {
          assert rest[i] == items[i + 1];
        }
      }
      PlainListReadsBackFrom(rest);
      var y := Quoted(Sanitized(rest[0].text));
      var after := ItemsText(rest[1..], false, Sanitized);
      assert more == "," + y + after;
      MoreAfterComma(CommentStripped(x), y, after, PlainValues(rest));
      assert PlainValues(items) == [CommentStripped(x)] + PlainValues(rest);
    }
  }

  /** A comma after a literal continues the list with the literals that follow it. */
  lemma MoreAfterComma(v: string, y: string, after: string, vs: seq<string>)
    requires ReadValues(y + (after + ")")) == Some(vs)
    ensures MoreValues(v, "," + y + after + ")") == Some([v] + vs)
  {
    CommaSplit(y, after, ")");
  }

  lemma FirstPlainText(items: seq<Item>)
    requires |items| >= 1 && items[0].Plain?
    ensures ItemsText(items, true, Sanitized) == Quoted(Sanitized(items[0].text)) + ItemsText(items[1..], false, Sanitized)
  {
  }

  /**
   * A timestamp that follows a plain element gets no comma, so SQL reads the
   * two as a single literal joined by a quote.
   */
  lemma StampAfterPlainMerges(x: string, stamp: string)
    requires '\'' !in stamp
    ensures ReadValues(InListText([Plain(x), Stamp(stamp)]) + ")")
            == Some([CommentStripped(x) + "'" + stamp])
  {
    var items := [Plain(x), Stamp(stamp)];
    assert items[1..] == [Stamp(stamp)];
    assert [Stamp(stamp)][1..] == [];
    EmptyRight(Quoted(stamp));
    assert ItemsText([Stamp(stamp)], false, Sanitized) == Quoted(stamp) + ItemsText([], false, Sanitized);
    assert ItemsText(items, true, Sanitized) == ItemText(Plain(x), true, Sanitized) + ItemsText([Stamp(stamp)], false, Sanitized);
    assert InListText(items) == Quoted(Sanitized(x)) + Quoted(stamp);
    MergedLiteral(CommentStripped(x), stamp);
  }

  lemma MergedLiteral(c: string, stamp: string)
    requires '\'' !in stamp
    ensures ReadValues(Quoted(EscapeQuotes(c)) + Quoted(stamp) + ")") == Some([c + "'" + stamp])
  {
    var merged := c + "'" + stamp;
    Assoc(c, "'", stamp);
    EscapeAppend(c, "'" + stamp);
    EscapeAppend("'", stamp);
    EscapeWithoutQuotes(stamp);
    assert EscapeQuotes("'") == "''";
    assert EscapeQuotes(merged) == EscapeQuotes(c) + ("''" + stamp);
    EscapeThenRead(merged, ")");
    MergeGlue(EscapeQuotes(c), stamp);
    ReadFirst(EscapeQuotes(merged), merged, ")");
  }

  // ---------------------------------------------------------------------
  // The renderings of each operator family.

  /** The text a comparison writes for a string, another object or a list: a list's type name. */
  function ValueText(value: Term): string
    requires value.Str? || value.Obj? || value.List?
  {
    match value
    case Str(s) => s
    case Obj(text) => text
    case List(typeName, _) => typeName
  }

  /**
   * A comparison of a column with a string, another object or a list writes
   * the column, the symbol and the quoted sanitised value text, a list's
   * elements playing no part, and SQL reads that text back comment-stripped.
   */
  lemma ComparisonLeaf(column: string, op: Operator, value: Term)
    requires IsComparison(op) && (value.Str? || value.Obj? || value.List?)
    ensures Compile(Expr(Str(column), op, value))
            == Some("(" + Sanitized(column) + " " + Symbol(op) + " '" + Sanitized(ValueText(value)) + "')")
    ensures ReadQuoted(Sanitized(ValueText(value)) + "')") == Some((CommentStripped(ValueText(value)), ")"))
  {
    var v := ValueText(value);
    var e := Expr(Str(column), op, value);
    assert Head(e) == Some("(" + (Sanitized(column) + " "));
    assert RightText(value) == Quoted(Sanitized(v));
    SanitizedLiteral(v, ")");
    ComparisonGlue(Sanitized(column), Symbol(op), Sanitized(v));
    QuoteParen(Sanitized(v));
  }

  /** Two conditions joined by a boolean operator render each inside its own parentheses. */
  lemma Junction(p: Expr, junction: Operator, o: Expr)
    requires junction == And || junction == Or
    requires Supported(p) && Supported(o)
    ensures Supported(Expr(Nested(p), junction, Nested(o)))
    ensures Compile(Expr(Nested(p), junction, Nested(o)))
            == Some("(" + OrEmpty(Compile(p)) + " " + Symbol(junction) + " " + OrEmpty(Compile(o)) + ")")
  {
    var e := Expr(Nested(p), junction, Nested(o));
    var h := "(" + OrEmpty(Compile(p)) + " ";
    assert Head(e) == Some(h);
    assert Tail(e, h) == Some(h + Symbol(junction) + " " + OrEmpty(Compile(o)) + ")");
  }

  /** IsNull and IsNotNull ignore the right term, even an absent one. */
  lemma NullTestIgnoresRight(left: Term, op: Operator, r1: Term, r2: Term)
    requires op == IsNull || op == IsNotNull
    requires Supported(Expr(left, op, r1)) && Supported(Expr(left, op, r2))
    ensures Compile(Expr(left, op, r1)) == Compile(Expr(left, op, r2))
  {
  }

  /** A null test writes the column, two spaces and the test. */
  lemma NullTestShape(column: string, op: Operator, right: Term)
    requires op == IsNull || op == IsNotNull
    requires right.Nested? ==> Supported(right.e)
    ensures Compile(Expr(Str(column), op, right))
            == Some("(" + Sanitized(column) + "  " + (if op == IsNull then "IS NULL" else "IS NOT NULL") + ")")
  {
    NullTestGlue(Sanitized(column));
  }

  /** IN keeps the column, followed by two spaces. */
  lemma InKeepsColumn(column: string, typeName: string, items: seq<Item>)
    ensures Compile(Expr(Str(column), In, List(typeName, items)))
            == Some("(" + Sanitized(column) + "  IN (" + InListText(items) + "))")
    ensures Compile(Expr(Str(column), NotIn, List(typeName, items)))
            == Some("(" + Sanitized(column) + "  NOT IN (" + InListText(items) + "))")
  {
    InGlue(Sanitized(column), InListText(items));
  }

  /** Contains omits the column before the operator and writes a doubly parenthesised LIKE union. */
  lemma ContainsShape(column: string, value: string)
    ensures Compile(Expr(Str(column), Contains, Str(value))) == Some("(" + LikeUnion(column, "LIKE", value) + ")")
    ensures Compile(Expr(Str(column), ContainsNot, Str(value))) == Some("(" + LikeUnion(column, "NOT LIKE", value) + ")")
    ensures forall t: Term | !t.Str? && (t.Nested? ==> Supported(t.e)) ::
              Compile(Expr(Str(column), Contains, t)).None?
  {
    EmptyRight("(");
  }

  /** A nested condition that fails to compile does not fail its parent. */
  lemma NestedFailureAbsorbed(sub: Expr, op: Operator, right: Term)
    requires Supported(sub) && Compile(sub).None?
    requires IsComparison(op) && !right.Null? && (right.Nested? ==> Supported(right.e))
    ensures Compile(Expr(Nested(sub), op, right)) == Some("( " + Symbol(op) + " " + RightText(right) + ")")
  {
    AbsorbGlue(Symbol(op), RightText(right));
  }

}
