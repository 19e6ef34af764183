/** Plain records of the cutting-list domain; lengths are already scaled integers. */
module Entities {
  /** One aggregated demand row: a part type, its length and how many are needed. */
  datatype Part = Part(partType: string, length: int, quantity: nat)

  /** One unit piece to be cut (the source's `Item`/`Part` record). */
  datatype Item = Item(partType: string, length: int)

  /** One stock type: its length, its usable length and how many bars are available. */
  datatype Stock = Stock(length: nat, usableLength: int, quantity: nat)

  function ItemLength(it: Item): int { it.length }

  function PartLength(p: Part): int { p.length }
}
