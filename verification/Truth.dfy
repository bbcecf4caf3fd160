/**
 Kleene's three-valued logic, the logic of SQL search conditions (section 8.12 of
 ISO/IEC 9075:1992).
 */
module Kleene {

  datatype Truth = True | False | Unknown

  function And(a: Truth, b: Truth): Truth {
    if a.False? || b.False? then False else if a.True? && b.True? then True else Unknown
  }

  function Or(a: Truth, b: Truth): Truth {
    if a.True? || b.True? then True else if a.False? && b.False? then False else Unknown
  }

  function Not(a: Truth): Truth {
    match a
    case True => False
    case False => True
    case Unknown => Unknown
  }

  function OfBool(b: bool): Truth {
    if b then True else False
  }

  function AndAll(ts: seq<Truth>): Truth {
    if ts == [] then True else And(ts[0], AndAll(ts[1..]))
  }

  function OrAll(ts: seq<Truth>): Truth {
    if ts == [] then False else Or(ts[0], OrAll(ts[1..]))
  }

  /** An n-ary AND is decided by which truth values occur, not by order or multiplicity. */
  lemma {:induction false} AndAllValue(ts: seq<Truth>)
    ensures AndAll(ts).False? <==> False in ts
    ensures AndAll(ts).True? <==> False !in ts && Unknown !in ts
  {
    if ts != [] {
      AndAllValue(ts[1..]);
    }
  }

  lemma {:induction false} OrAllValue(ts: seq<Truth>)
    ensures OrAll(ts).True? <==> True in ts
    ensures OrAll(ts).False? <==> True !in ts && Unknown !in ts
  {
    if ts != [] {
      OrAllValue(ts[1..]);
    }
  }
}
