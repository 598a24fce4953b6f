/**
 * The unified slot sequence of one compound. `Embedder.forward` concatenates
 * element rows, categorical rows, boolean rows and numeric rows in this order
 * (kingcrab.py line 120), and `CrabNet.forward` builds its mask in the same
 * order (line 355).
 */
module Layout {

  /** How many slots of each kind a compound has. */
  datatype Counts = Counts(elements: nat, categorical: nat, boolean: nat, numeric: nat)

  /** A slot, named by its kind and its position within that kind. */
  datatype Slot = Element(k: nat) | Categorical(k: nat) | Boolean(k: nat) | Numeric(k: nat)

  function Total(c: Counts): nat {
    c.elements + c.categorical + c.boolean + c.numeric
  }

  predicate InBounds(c: Counts, s: Slot) {
    match s
    case Element(k) => k < c.elements
    case Categorical(k) => k < c.categorical
    case Boolean(k) => k < c.boolean
    case Numeric(k) => k < c.numeric
  }

  /** Position of a slot in the unified sequence. */
  function Offset(c: Counts, s: Slot): (i: nat)
    requires InBounds(c, s)
    ensures i < Total(c)
  {
    match s
    case Element(k) => k
    case Categorical(k) => c.elements + k
    case Boolean(k) => c.elements + c.categorical + k
    case Numeric(k) => c.elements + c.categorical + c.boolean + k
  }

  /** The slot at a position of the unified sequence. */
  function SlotAt(c: Counts, i: nat): (s: Slot)
    requires i < Total(c)
    ensures InBounds(c, s) && Offset(c, s) == i
    ensures s.Element? <==> i < c.elements
  {
    if i < c.elements then Element(i)
    else if i < c.elements + c.categorical then Categorical(i - c.elements)
    else if i < c.elements + c.categorical + c.boolean then Boolean(i - c.elements - c.categorical)
    else Numeric(i - c.elements - c.categorical - c.boolean)
  }

  /** Every slot kind occupies its own block: positions and slots correspond one to one. */
  lemma OffsetRoundTrip(c: Counts, s: Slot)
    requires InBounds(c, s)
    ensures SlotAt(c, Offset(c, s)) == s
  {
  }
}
