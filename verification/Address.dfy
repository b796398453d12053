/** Account addresses. They are opaque: only equality and one arbitrary total order on them matter. */
module Address {
  type Key = int
}
