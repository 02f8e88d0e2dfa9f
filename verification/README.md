# WHERE-clause expressions of the SQLite helper

This project models, in Dafny, the `Expression` class of the SQLite helper
library (Helper/CommonHelper.cs) and the `Operators` enumeration
(Helper/Enums.cs). An `Expression` is a term, an operator and a term.
Either term may be another `Expression`, so conditions nest. The class
turns such a tree into the text of a SQL `WHERE` clause, and it sanitises
every value it writes. It also combines conditions:

- it joins two conditions with AND or OR, into a new node or in place on
  the receiver;
- it folds a list of conditions into a right-nested chain.

The modules follow the source:

- `Wrappers`: `Option`, the possibly-null reference.
- `Enums`: the fourteen operators, in declaration order.
- `Sanitizer`: `SanitizeString`, modelled as a method with its loops. The
  method is proved equal to a pipeline of specification functions. The
  stages are:
  - drop characters below code point 32;
  - remove `--`, then `/*`, then `*/`, each by search-and-remove until
    none is left;
  - double every single quote.

  The lemmas state what the pipeline guarantees. The result has no
  control character and no comment delimiter. Read as a SQL literal, it
  gives back exactly the comment-stripped value, so a value cannot close
  its quotes early. The lemmas also pin down what the pipeline does not
  do: a `--` can reappear when a comment delimiter between two dashes is
  removed.
- `Clause`: the term and expression datatypes, and `Compile`, the model of
  `ToWhereClause`. `RenderInList` is the IN-list loop.
  - Lemmas give the exact rendering of each operator family.
  - A nested condition that fails to compile contributes an empty string.
  - SQL reads a list of non-date elements back, in order, as its values.
  - A date that follows a plain element fuses with it into one literal,
    because no comma is written before a date that is not first.
- `Combinators`: `PrependAndClause`, `PrependOrClause` and the list folds,
  with the exceptions as a `Fault`. The lemmas cover:
  - when a fold faults;
  - a fold's spine gives its list back;
  - a fold of two or more conditions always compiles, to the joined texts.
- `ExpressionObject`: the `Expression` class, with fields that `PrependAnd`
  and `PrependOr` overwrite in place.
- `CommonHelper`: `IsExtendedCharacters`.

Some renderings are kept exactly as the code writes them:

- `In`/`NotIn` keep the column, followed by two spaces:
  `(Id  IN ('1','2','3'))`.
- `Contains`/`ContainsNot` produce a doubly parenthesised union:
  `((c LIKE 'v%'OR c LIKE '%v%'OR c LIKE '%v'))`.
- `IsNull`/`IsNotNull` ignore the right term entirely.

Terms are modelled by what the code tests at run time:

- `Str`: a C# `string`. It is the column on the left and a value on the
  right.
- `Obj`: any other object, by its `ToString()` text.
- `Date`: a `DateTime`, by the text the timestamp formatter gives it. That
  text is written quoted and is never sanitised.
- `List`: a `List<T>` for any element type `T`. It carries its elements and
  the text its `ToString()` gives, the runtime type name, which depends on
  `T` (for example ``System.Collections.Generic.List`1[System.Int32]``).
  An IN list writes the elements; a comparison writes that type name.
- `Nested`: another `Expression`.
- `Null`: a null term.

## Model

| member | source | states |
|---|---|---|
| Sanitizer.SanitizeString | Helper/CommonHelper.cs:767-843 | The method's result is the specification pipeline `Sanitized`, empty input included. |
| Sanitizer.DropControl | Helper/CommonHelper.cs:778-791 | The character loop keeps exactly the characters at or above code point 32, in order (`StripControl`). |
| Sanitizer.RemoveEvery | Helper/CommonHelper.cs:796-836 | Each `while(true)` search-and-remove loop ends with the text `RemovePairs` specifies. |
| Sanitizer.StripControl | Helper/CommonHelper.cs:778-791 | The result has no control character, and text without control characters is unchanged. |
| Sanitizer.StripControlCounts | Helper/CommonHelper.cs:778-791 | Every character other than a control character keeps its number of occurrences, so only control characters are dropped. |
| Sanitizer.IndexOfPair | Helper/CommonHelper.cs:799 | The result is -1 exactly when the pair does not occur. Otherwise it is the first position of the pair. |
| Sanitizer.RemovePairs | Helper/CommonHelper.cs:796-808 | No occurrence of the pair is left, the result is no longer, and text without the pair is unchanged. |
| Sanitizer.RemovePairsWithin | Helper/CommonHelper.cs:796-808 | Every character of the result was in the input. |
| Sanitizer.EscapeQuotes | Helper/CommonHelper.cs:841 | The result is at least as long and keeps the first character. |
| Sanitizer.EscapeWithin | Helper/CommonHelper.cs:841 | The only character escaping adds is the quote. |
| Sanitizer.CommentStrippedSafe | Helper/CommonHelper.cs:778-836 | After the control, dash and comment stages there is no control character, no `/*` and no `*/`. |
| Sanitizer.SanitizedSafe | Helper/CommonHelper.cs:767-843 | The full sanitiser's result has no control character, no `/*` and no `*/`. |
| Sanitizer.StripControlStep | Helper/CommonHelper.cs:780-790 | One character more keeps the character or drops it, by the `< 32` test. |
| Sanitizer.RemoveTwoKeepsNoPair | Helper/CommonHelper.cs:820 | Removing a `/*` cannot create a `*/` where there was none (and the same with the roles swapped). |
| Sanitizer.RemovePairsKeepsNoPair | Helper/CommonHelper.cs:813-836 | The `*/` loop cannot bring back a `/*` that the previous loop removed. |
| Sanitizer.NoPairConcat | Helper/CommonHelper.cs:841 | A pair absent from two texts and from their seam is absent from their concatenation. |
| Sanitizer.EscapeKeepsNoPair | Helper/CommonHelper.cs:841 | Doubling quotes cannot create a comment delimiter. |
| Sanitizer.EscapeWithoutQuotes | Helper/CommonHelper.cs:841 | Text without a quote is not changed by the replacement. |
| Sanitizer.EscapeAppend | Helper/CommonHelper.cs:841 | The replacement distributes over concatenation. |
| Sanitizer.ReadQuoted | Helper/CommonHelper.cs:841 | A SQL literal reader: `''` stands for a quote and a lone quote ends the literal. What is left after the literal is shorter than the input. |
| Sanitizer.EscapeThenRead | Helper/CommonHelper.cs:841 | Reading back an escaped value followed by a closing quote gives exactly the value, and the literal ends at that quote. |
| Sanitizer.SanitizedLiteral | Helper/CommonHelper.cs:767-843 | A sanitised value between quotes reads back as its comment-stripped text, so it cannot break out of its literal. |
| Sanitizer.CleanUnchanged | Helper/CommonHelper.cs:767-843 | Text with nothing to strip or escape is returned unchanged. |
| Sanitizer.FirstPairAt | Helper/CommonHelper.cs:799-806 | When the first pair is at `i`, the search finds `i` and the loop continues on the text without it. |
| Sanitizer.DashLoopJoinsPairs | Helper/CommonHelper.cs:796-808 | `a--b--c` becomes `abc`. |
| Sanitizer.DashLoopOddRun | Helper/CommonHelper.cs:796-808 | `---` becomes `-`: a run of odd length leaves one dash. |
| Sanitizer.NoControlIn | Helper/CommonHelper.cs:778-791 | The character loop keeps the worked examples unchanged. |
| Sanitizer.NoCommentIn | Helper/CommonHelper.cs:813-836 | The comment loops leave text without delimiters unchanged. |
| Sanitizer.NoQuoteIn | Helper/CommonHelper.cs:841 | The replacement leaves quote-free examples unchanged. |
| Sanitizer.DashRunsCollapse | Helper/CommonHelper.cs:767-843 | The whole sanitiser maps `a--b--c` to `abc` and `---` to `-`. |
| Sanitizer.OpenCommentJoinsDashes | Helper/CommonHelper.cs:813-822 | Removing `/*` from `-/*-` leaves `--`. |
| Sanitizer.NoDashPairIn | Helper/CommonHelper.cs:796-808 | `-/*-` has no `--` for the dash loop. |
| Sanitizer.DashPairCanReappear | Helper/CommonHelper.cs:796-822 | The sanitiser maps `-/*-` to `--`, because the dash loop runs before the comment loops. |
| Sanitizer.EscapeItS | Helper/CommonHelper.cs:841 | `it's` becomes `it''s`. |
| Sanitizer.QuoteDoubled | Helper/CommonHelper.cs:767-843 | The sanitiser maps `it's` to `it''s`. |
| Clause.Symbol | Helper/CommonHelper.cs:244-520 | Each comparison operator's keyword is non-empty, without spaces or quotes. |
| Clause.Compile | Helper/CommonHelper.cs:210-536 | The result is null exactly when the root is malformed. The left term must be a string or a condition. IN/NOT IN need a list, Contains/ContainsNot a string, and the comparison operators a non-null right term. |
| Clause.Head | Helper/CommonHelper.cs:214-238 | The opening part exists exactly when the left term is a string or a condition. |
| Clause.Tail | Helper/CommonHelper.cs:240-535 | The operator part exists exactly when the right term is what the operator needs. |
| Clause.RenderInList | Helper/CommonHelper.cs:336-364 | The IN-list loop with its counter produces the list text: the first element bare, later non-dates with a comma, dates never with one. |
| Clause.RenderItem | Helper/CommonHelper.cs:339-362 | One pass of the loop body writes that element's text: a date quoted as is, anything else sanitised and quoted, with a comma unless first. |
| Clause.RenderStep | Helper/CommonHelper.cs:337-363 | One pass of the loop extends the text by exactly one element. |
| Clause.ItemsTextAppend | Helper/CommonHelper.cs:337-363 | One more list element appends its own text, marked first only if the list was empty. |
| Clause.ReadFirst | Helper/CommonHelper.cs:347 | A list that starts with a quoted literal reads that literal first, then continues after it. |
| Clause.PlainListReadsBack | Helper/CommonHelper.cs:336-364 | SQL reads an IN list of non-date elements back as exactly those elements, comment-stripped, in order. |
| Clause.PlainListReadsBackFrom | Helper/CommonHelper.cs:337-363 | The induction behind `PlainListReadsBack`, element by element. |
| Clause.MoreAfterComma | Helper/CommonHelper.cs:359 | A comma after a literal continues the list with the literals after it. |
| Clause.FirstPlainText | Helper/CommonHelper.cs:345-348 | A non-date first element is written quoted, without a comma. |
| Clause.StampAfterPlainMerges | Helper/CommonHelper.cs:351-356 | A date after a plain element gets no comma, so SQL reads the two as one literal joined by a quote. |
| Clause.MergedLiteral | Helper/CommonHelper.cs:353-356 | An escaped value followed directly by a quoted date reads as one literal. |
| Clause.ComparisonLeaf | Helper/CommonHelper.cs:244-520 | A comparison with a string, another object or a list writes the column, the symbol and the quoted sanitised value text; for a list that text is its type name, whatever its elements. The value reads back as its comment-stripped text. |
| Clause.Junction | Helper/CommonHelper.cs:244-282 | AND/OR between two conditions writes each condition's text in its own place. |
| Clause.NullTestIgnoresRight | Helper/CommonHelper.cs:522-528 | IsNull and IsNotNull produce the same text whatever the right term is, null included. |
| Clause.NullTestShape | Helper/CommonHelper.cs:522-528 | A null test writes the column, two spaces, then `IS NULL` or `IS NOT NULL`. |
| Clause.InKeepsColumn | Helper/CommonHelper.cs:324-410 | IN and NOT IN keep the column and write two spaces before the keyword. |
| Clause.ContainsShape | Helper/CommonHelper.cs:412-440 | Contains writes no column before the union, and the three-way LIKE union sits in double parentheses. A non-string right term gives null. |
| Clause.NestedFailureAbsorbed | Helper/CommonHelper.cs:218-221 | A nested condition that returns null contributes an empty string, and its parent still compiles. |
| Combinators.PrependClause | Helper/CommonHelper.cs:565-595 | A null prepend faults first, then a null original. Otherwise the result joins the two under the junction. |
| Combinators.PrependAndClause | Helper/CommonHelper.cs:565-576 | The result is a node exactly when both arguments are present. It has AND between them and gives them back as its parts. |
| Combinators.PrependOrClause | Helper/CommonHelper.cs:584-595 | The same with OR. |
| Combinators.JoinedText | Helper/CommonHelper.cs:565-595 | A joined pair always compiles, to both texts around the junction inside one more pair of parentheses. |
| Combinators.NestFaults | Helper/CommonHelper.cs:612-647 | The fold throws exactly when an element other than the last is null, and it throws a null dereference. |
| Combinators.Values | Helper/CommonHelper.cs:624-639 | The values of a list without nulls, position by position. |
| Combinators.Texts | Helper/CommonHelper.cs:602-649 | One text per condition. |
| Combinators.NestUnchains | Helper/CommonHelper.cs:602-649 | A list without nulls folds into a chain whose right spine gives the list back. |
| Combinators.NestText | Helper/CommonHelper.cs:602-649 | A fold of two or more conditions always compiles, to their texts joined from the right by the junction. |
| Combinators.ListToNested | Helper/CommonHelper.cs:602-703 | The method's result is the specification fold: null list faults, empty list gives null, one element is returned itself. Longer lists copy the first element, collect the rest and recurse. |
| Combinators.ListToNestedAndExpression | Helper/CommonHelper.cs:602-649 | The fold with AND. |
| Combinators.ListToNestedOrExpression | Helper/CommonHelper.cs:656-703 | The fold with OR. |
| Combinators.ThreeChain | Helper/CommonHelper.cs:602-649 | Three conditions fold to `a J (b J c)`. |
| Combinators.NullLastElement | Helper/CommonHelper.cs:641-645 | A null last element becomes a null right term, and that chain's root does not compile. |
| ExpressionObject.Expression.Value | Helper/CommonHelper.cs:183-196 | The condition the three fields hold. |
| ExpressionObject.Expression.constructor | Helper/CommonHelper.cs:162-164 | Both terms null and the operator at its default, `And`. |
| ExpressionObject.Expression.Make | Helper/CommonHelper.cs:172-177 | The fields hold the given terms and operator. |
| ExpressionObject.Expression.PrependAnd | Helper/CommonHelper.cs:721-732 | A null argument throws and leaves the fields alone. Otherwise the fields become the AND of the argument and the old fields. The receiver is never its own argument. |
| ExpressionObject.Expression.PrependOr | Helper/CommonHelper.cs:750-761 | The same with OR. |
| ExpressionObject.Expression.Prepend | Helper/CommonHelper.cs:721-761 | The shared body: null check, copy of the old fields, join, and overwrite of the three fields. |
| ExpressionObject.Expression.PrependAndTerms | Helper/CommonHelper.cs:711-715 | Builds the condition from the three arguments, then prepends it with AND. |
| ExpressionObject.Expression.PrependOrTerms | Helper/CommonHelper.cs:740-744 | The same with OR. |
| ExpressionObject.PrependedText | Helper/CommonHelper.cs:721-761 | After a prepend, the receiver's clause is the prepended clause and the old clause around the junction. It compiles even when the old clause did not. |
| CommonHelper.IsExtendedCharacters | Helper/CommonHelper.cs:144-152 | True exactly when the string is non-null and holds a character above code point 256. |

## Left out

- Helper/SQLiteHelper_C.cs is not part of this model: it holds the database access that only uses the clause text.
- The DataTable and reflection helpers of the helper class (Helper/CommonHelper.cs:36-142) and `IsList`/`ObjectToList` (16-34) are not modelled. A list right term is given directly as a `List` term, with its elements and its type name.
- `DbTimestamp` (Helper/CommonHelper.cs:845-852): a date term carries the text it produces, because date formatting and the clock are outside the model.
- `ToString()` of arbitrary objects is modelled as the text an `Obj` term carries.
- The `Console.WriteLine` diagnostic (Helper/CommonHelper.cs:226) is output only and is left out.
- Clause.Compile: requires that no Contains/ContainsNot node has a nested condition on its left. There the source calls `Expression.ToString` (Helper/CommonHelper.cs:542-557), which is not part of this model. That method can also throw on null terms.
- Clause.Item: a list element is either a date or an object with a text. A null element, whose `ToString()` throws, is not modelled, and neither is a nested `Expression` element.
- Combinators.ListToNested: the single element of a one-element list is returned as the same object. Values cannot express that aliasing.
- ExpressionObject.Expression: terms hold condition values, not references, so later changes to a nested object are not seen by its parent.
- ExpressionObject.Expression.PrependAnd, ExpressionObject.Expression.PrependOr and ExpressionObject.Expression.Prepend require that the argument is not the receiver. Given itself, the source makes the receiver its own left term (Helper/CommonHelper.cs:725-727), a cycle on which `ToWhereClause` never returns; the model states no result for that call.
- Sanitizer.IndexOfPair: .NET's default `IndexOf(string)` compares culture-sensitively and skips zero-width characters; the model searches ordinally. Characters are Unicode scalar values, not UTF-16 code units. The thresholds 32 and 256 and the ASCII patterns do not depend on that. Because of this, Sanitizer.SanitizedSafe's guarantee of no `/*` and no `*/` holds for ordinal search only: the culture-sensitive `IndexOf` at lines 799, 816 and 830 can match across an ignorable character such as U+00AD, and can miss a delimiter whose `/` carries a combining mark. The quote doubling at line 841 is an ordinal `Replace` and is unaffected.
