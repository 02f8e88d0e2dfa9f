/** The operators a condition can carry, in the order the enumeration declares them. */
module Enums {
  datatype Operator =
    | And
    | Or
    | Equals
    | NotEquals
    | In
    | NotIn
    | Contains
    | ContainsNot
    | GreaterThan
    | GreaterThanOrEqualTo
    | LessThan
    | LessThanOrEqualTo
    | IsNull
    | IsNotNull
}
