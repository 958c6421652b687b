/** SQL's three-valued logic, as the filters on the request log use it. */
module Sql {
  import opened Wrappers

  datatype Truth = True | False | Unknown

  function Of(b: bool): Truth {
    if b then True else False
  }

  function Or(a: Truth, b: Truth): Truth {
    if a == True || b == True then True
    else if a == False && b == False then False
    else Unknown
  }

  function And(a: Truth, b: Truth): Truth {
    if a == False || b == False then False
    else if a == True && b == True then True
    else Unknown
  }

  /** False below unknown below true. */
  ghost function Rank(t: Truth): int {
    match t case False => -1 case Unknown => 0 case True => 1
  }

  /** Of two truths OR is the higher and AND the lower. */
  lemma HigherAndLower(a: Truth, b: Truth)
    ensures Rank(Or(a, b)) == Max(Rank(a), Rank(b)) && Rank(And(a, b)) == -Max(-Rank(a), -Rank(b))
  {
  }

  /** `column = value`, where NULL compares with nothing. */
  function Equals(column: Option<string>, value: string): Truth {
    if column.None? then Unknown else Of(column.value == value)
  }

  /** `column NOT IN (values)`; of an empty list it is true even of NULL. */
  function NotIn(column: Option<string>, values: set<string>): Truth {
    if values == {} then True
    else if column.None? then Unknown
    else Of(column.value !in values)
  }
}
