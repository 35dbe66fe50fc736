/**
 * The request interceptor that attaches the normalised slots to the request
 * attributes before any handler runs.
 */
module SlotsInterceptor {
  import opened Wrappers
  import opened Constants
  import opened Typings
  import opened Helpers

  /** The interceptor can read every slot of an intent request. */
  predicate SlotsReadable(request: Request)
  {
    request.IntentRequest? ==> WellFormedSlots(request.intent.slots)
  }

  /**
   * The slot outcomes the interceptor stores: the normalised slots of an intent
   * request, nothing for any other request. Every outcome is stored under its own
   * name, and that name is the name of one of the request's slots.
   */
  function SlotsAttributeFor(request: Request): (outcomes: SlotValues)
    requires SlotsReadable(request)
    ensures request.Type() != IntentType ==> outcomes == map[]
    ensures forall n :: n in outcomes ==> outcomes[n].name == n && AmbiguityConsistent(outcomes[n])
    ensures forall n :: n in outcomes ==>
              && request.IntentRequest? && request.intent.slots.Some?
              && exists k :: k in request.intent.slots.value.entries && request.intent.slots.value.entries[k].name == n
  {
    if request.Type() == IntentType then
      var outcomes := NormalizedSlots(request.intent.slots);
      if request.intent.slots.Some? then
        var t := request.intent.slots.value;
        TableReadable(t);
        NormalizeOutcomesWellFormed(t.order, t.entries);
        forall n | n in outcomes
          ensures exists k :: k in t.entries && t.entries[k].name == n
        {
          NormalizedKeysAreSlotNames(t, n);
        }
        outcomes
      else
        outcomes
    else
      map[]
  }

  /** Slots.process: sets the `slots` request attribute, and no other. */
  method Process(h: HandlerInput)
    requires SlotsReadable(h.request)
    modifies h`requestAttributes
    ensures h.requestAttributes == old(h.requestAttributes)[SlotsKey := SlotValuesAttribute(SlotsAttributeFor(h.request))]
    ensures forall k :: k != SlotsKey ==>
              (k in h.requestAttributes <==> k in old(h.requestAttributes)) &&
              (k in h.requestAttributes ==> h.requestAttributes[k] == old(h.requestAttributes)[k])
  {
    var attributes := h.requestAttributes;
    if h.request.Type() == IntentType {
      var slotValues := GetSlotValues(h.request.intent.slots);
      attributes := attributes[SlotsKey := SlotValuesAttribute(slotValues)];
    } else {
      attributes := attributes[SlotsKey := SlotValuesAttribute(map[])];
    }
    h.requestAttributes := attributes;
  }

  /** An intent request without slots gets the empty outcome map. */
  lemma IntentWithoutSlots(request: Request)
    requires request.IntentRequest? && request.intent.slots.None?
    ensures SlotsAttributeFor(request) == map[]
  {
  }

  /** An intent request carrying the platform's slots gets each slot's own outcome under its name. */
  lemma IntentOutcomes(request: Request, k: string)
    requires request.IntentRequest? && request.intent.slots.Some?
    requires WellFormedTable(request.intent.slots.value) && NamedByKey(request.intent.slots.value)
    requires k in request.intent.slots.value.entries
    ensures var slot := request.intent.slots.value.entries[k];
            && (k in SlotsAttributeFor(request) <==> SlotOutcomeOf(slot).Some?)
            && (k in SlotsAttributeFor(request) ==> SlotsAttributeFor(request)[k] == SlotOutcomeOf(slot).value)
  {
    NormalizeByKey(request.intent.slots.value, k);
  }

  /** A hello-world intent with an empty slot object stores no outcomes. */
  lemma HelloWorldExample()
    ensures var request: Request := IntentRequest(Intent("HelloWorldIntent", Some(SlotRecord([], map[]))), Some("STARTED"));
            SlotsReadable(request) && SlotsAttributeFor(request) == map[]
  {
  }
}
