/** A cell of the weighted incidence matrix: a direction marker and a weight. */
module Nodes {
  import opened Incidences

  /** An edge weight. Weights are only stored, copied and compared with the
      "no weight" sentinel, so a finite weight is kept as an uninterpreted real. */
  datatype Weight = Infinity | Finite(w: real)

  /** The sentinel every fresh cell carries. */
  const INFINITY: Weight := Infinity

  /** What a Node holds at one moment. */
  datatype NodeValue = NodeValue(direction: Incidence, weight: Weight)

  /** The value a freshly built Node holds. */
  const EMPTY: NodeValue := NodeValue(NONE, INFINITY)

  /** The mutable cell object. */
  class Node {
    var direction: Incidence
    var weight: Weight

    /** What this node holds now. */
    function Value(): NodeValue
      reads this
    {
      NodeValue(direction, weight)
    }

    /** A new node is not on any edge and carries no weight. */
    constructor ()
      ensures Value() == EMPTY
    {
      direction := NONE;
      weight := INFINITY;
    }

    /** Overwrites both fields. */
    method MakeNode(dir: Incidence, v: Weight)
      modifies this
      ensures Value() == NodeValue(dir, v)
    {
      direction := dir;
      weight := v;
    }

    /** Overwrites the direction only. */
    method PutDirection(dir: Incidence)
      modifies this
      ensures Value() == old(Value()).(direction := dir)
    {
      direction := dir;
    }

    /** Overwrites the weight only. */
    method PudWeight(v: Weight)
      modifies this
      ensures Value() == old(Value()).(weight := v)
    {
      weight := v;
    }

    function GetDirection(): (d: Incidence)
      reads this
      ensures d == Value().direction
    {
      direction
    }

    function GetWeight(): (v: Weight)
      reads this
      ensures v == Value().weight
    {
      weight
    }
  }
}
