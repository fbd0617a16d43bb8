/** The fixed event-to-time-slot table of team registration. */
module Catalog {
  import opened Wrappers

  /** A time window; `Both` blocks the two windows at once. */
  datatype Slot = One | Two | Both

  const BidMayhem := "Bid Mayhem"

  /** The eight events, in the order the table lists them. */
  const EventNames: seq<string> :=
    ["Fixathon", "Mute Masters", "Treasure Titans", BidMayhem, "QRush", "VisionX", "ThinkSync", "Crazy Sell"]

  const SlotOneEvents: set<string> := {"Fixathon", "Mute Masters", "Treasure Titans"}
  const SlotTwoEvents: set<string> := {"QRush", "VisionX", "ThinkSync", "Crazy Sell"}

  const SlotMap: map<string, Slot> := map[
    "Fixathon" := One, "Mute Masters" := One, "Treasure Titans" := One,
    BidMayhem := Both,
    "QRush" := Two, "VisionX" := Two, "ThinkSync" := Two, "Crazy Sell" := Two
  ]

  /** The slot of an event, looked up among the table's own keys only. */
  function SlotOf(event: string): (r: Option<Slot>)
  {
    if event in SlotMap then Some(SlotMap[event]) else None
  }

  /** The table: three events in the first window, four in the second, Bid Mayhem in both. */
  lemma SlotOfTable(event: string)
    ensures SlotOf(event).Some? <==> event in EventNames
    ensures SlotOf(event) == Some(One) <==> event in SlotOneEvents
    ensures SlotOf(event) == Some(Two) <==> event in SlotTwoEvents
    ensures SlotOf(event) == Some(Both) <==> event == BidMayhem
  {
  }

  // ---------------------------------------------------------------------------
  // The table as the route reads it: `EVENT_SLOT_MAP[event]` on a plain object
  // literal, guarded by `if (!slot)`.

  /** Property names every object literal inherits from `Object.prototype`. */
  const InheritedNames: set<string> := {
    "constructor", "hasOwnProperty", "isPrototypeOf", "propertyIsEnumerable",
    "toLocaleString", "toString", "valueOf", "__proto__",
    "__defineGetter__", "__defineSetter__", "__lookupGetter__", "__lookupSetter__"
  }

  /** What a property read on the table yields. */
  datatype Property = OwnSlot(slot: Slot) | InheritedMember | Undefined

  /** `EVENT_SLOT_MAP[event]` with JavaScript's prototype lookup. */
  function LookupAsWritten(event: string): (p: Property)
    ensures p.OwnSlot? <==> SlotOf(event).Some?
    ensures p.InheritedMember? <==> event in InheritedNames
  {
    if event in SlotMap then OwnSlot(SlotMap[event])
    else if event in InheritedNames then InheritedMember
    else Undefined
  }

  /** `!slot` is false exactly for the values the guard lets through. */
  predicate GuardPassesAsWritten(event: string) {
    !LookupAsWritten(event).Undefined?
  }

  /**
   * The guard meant to reject names outside the table lets an inherited property
   * name through: `"constructor"` is no event, yet its lookup is truthy.
   */
  lemma InheritedNamePassesGuard()
    ensures GuardPassesAsWritten("constructor")
    ensures "constructor" !in EventNames
  {
    assert "constructor" in InheritedNames;
  }

  /** The corrected lookup accepts an event name exactly when it is one of the eight. */
  lemma SlotOfAcceptsOnlyEvents(event: string)
    ensures SlotOf(event).Some? <==> event in EventNames
    ensures GuardPassesAsWritten(event) && SlotOf(event).None? <==> event in InheritedNames
  {
  }
}
