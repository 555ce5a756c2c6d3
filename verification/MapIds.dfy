/** The ids under which the map database keeps its data. */
module MapIds {
  type NodeId = nat
  type WayId = nat
  type RelationId = nat
}
