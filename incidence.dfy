/** The three markers a cell of a directed incidence matrix can hold. */
module Incidences {

  /** NONE: the vertex is not on the edge; SOURCE: it is the edge's tail; TARGET: its head. */
  datatype Incidence = NONE | SOURCE | TARGET {

    /** The fixed integer each marker carries: 0, -1 and 1. */
    function GetValue(): (v: int)
      ensures -1 <= v <= 1
      ensures v == 0 <==> this == NONE
      ensures v < 0 <==> this == SOURCE
    {
      match this
      case NONE => 0
      case SOURCE => -1
      case TARGET => 1
    }
  }

  /** The marker that carries a given integer, if any: the inverse of GetValue. */
  function OfValue(x: int): (r: Option<Incidence>)
    ensures r.Some? <==> -1 <= x <= 1
  {
    if x == 0 then Some(NONE)
    else if x == -1 then Some(SOURCE)
    else if x == 1 then Some(TARGET)
    else None
  }

  datatype Option<T> = None | Some(value: T)

  /** Every marker is recovered from its value. */
  lemma OfValueGetValue(d: Incidence)
    ensures OfValue(d.GetValue()) == Some(d)
  {
    match d
    case NONE =>
    case SOURCE =>
    case TARGET =>
  }

  /** Every value in range comes from exactly one marker. */
  lemma GetValueOfValue(x: int)
    requires -1 <= x <= 1
    ensures OfValue(x).Some? && OfValue(x).value.GetValue() == x
  {
  }

  /** GetValue is injective: distinct markers carry distinct values. */
  lemma GetValueInjective(a: Incidence, b: Incidence)
    ensures a.GetValue() == b.GetValue() ==> a == b
  {
    OfValueGetValue(a);
    OfValueGetValue(b);
  }
}
