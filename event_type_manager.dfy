/**
 * The event types of the app (`EventTypeManager`): a fixed table of eight types, each
 * with an identifier 1..8, and the lookup of a type by identifier, which falls back to
 * the first (default) type.
 */
module EventTypeManager {

  const APP_EVENT_TYPE_COUNT := 8
  const EVENT_TYPES_PER_ROW := 4

  const EVENT_TYPE_DEFAULT := 1
  const EVENT_TYPE_BIRTHDAY := 2
  const EVENT_TYPE_CONFERENCE := 3
  const EVENT_TYPE_HOLIDAY := 4
  const EVENT_TYPE_COMPETITION := 5
  const EVENT_TYPE_TRAVEL := 6
  const EVENT_TYPE_CURE := 7
  const EVENT_TYPE_EXAMINATION := 8

  /** Which title, colour and icon resources a type carries; the resource ids themselves are not modelled. */
  datatype Kind = Default | Birthday | Conference | Holiday | Competition | Travel | Cure | Examination

  /** `OneEventType`: an identifier and the resources that go with it. */
  datatype OneEventType = OneEventType(id: int, kind: Kind)

  const APP_EVENT_TYPES: seq<OneEventType> := [
    OneEventType(EVENT_TYPE_DEFAULT, Default),
    OneEventType(EVENT_TYPE_BIRTHDAY, Birthday),
    OneEventType(EVENT_TYPE_CONFERENCE, Conference),
    OneEventType(EVENT_TYPE_HOLIDAY, Holiday),
    OneEventType(EVENT_TYPE_COMPETITION, Competition),
    OneEventType(EVENT_TYPE_TRAVEL, Travel),
    OneEventType(EVENT_TYPE_CURE, Cure),
    OneEventType(EVENT_TYPE_EXAMINATION, Examination)
  ]

  /** Some entry of the table has identifier `id`. */
  predicate IsKnownId(id: int) {
    exists i :: 0 <= i < |APP_EVENT_TYPES| && APP_EVENT_TYPES[i].id == id
  }

  /**
   * `getEventTypeFromId`: search the table in order and answer the entry with the given
   * identifier; without one, answer the default type at index 0.
   */
  method GetEventTypeFromId(eventTypeId: int) returns (r: OneEventType)
    ensures IsKnownId(eventTypeId) ==> r.id == eventTypeId && r in APP_EVENT_TYPES
    ensures !IsKnownId(eventTypeId) ==> r == APP_EVENT_TYPES[0]
  {
    for i := 0 to APP_EVENT_TYPE_COUNT
      invariant forall k :: 0 <= k < i ==> APP_EVENT_TYPES[k].id != eventTypeId
    {
      if APP_EVENT_TYPES[i].id == eventTypeId {
        return APP_EVENT_TYPES[i];
      }
    }
    return APP_EVENT_TYPES[0];
  }

  /**
   * The table holds exactly the identifiers 1..8, identifier `k` at index `k - 1`, the
   * count constant is its length, and entry 0 is the default type.
   */
  lemma TableLayout()
    ensures |APP_EVENT_TYPES| == APP_EVENT_TYPE_COUNT == 8
    ensures forall k :: 0 <= k < |APP_EVENT_TYPES| ==> APP_EVENT_TYPES[k].id == k + 1
    ensures forall id :: IsKnownId(id) <==> 1 <= id <= APP_EVENT_TYPE_COUNT
    ensures APP_EVENT_TYPES[0] == OneEventType(EVENT_TYPE_DEFAULT, Default)
  {
    forall id | 1 <= id <= APP_EVENT_TYPE_COUNT
      ensures IsKnownId(id)
    {
      assert APP_EVENT_TYPES[id - 1].id == id;
    }
  }

  /** Identifiers are unique, so the lookup answers the one entry with that identifier. */
  lemma LookupIsIndex(id: int)
    requires 1 <= id <= APP_EVENT_TYPE_COUNT
    ensures forall t :: t in APP_EVENT_TYPES && t.id == id ==> t == APP_EVENT_TYPES[id - 1]
  {
    TableLayout();
  }
}
