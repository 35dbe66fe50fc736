/**
 * The shapes the helpers work on: the platform's request and slot records (as the
 * SDK declares them) and the skill's own normalised slot outcomes
 * (IMatchedSlotValue / IUnmatchedSlotValue).
 */
module Typings {
  import opened Wrappers
  import opened Constants

  /** SlotConfirmationStatus: "NONE", "DENIED" or "CONFIRMED". */
  datatype ConfirmationStatus = NotConfirmed | Denied | Confirmed

  /** An entity-resolution value: a canonical id and name. */
  datatype Value = Value(id: string, name: string)

  /** The wrapper the platform puts around every candidate value. */
  datatype ValueWrapper = ValueWrapper(value: Value)

  /** A resolution status; `code` may be absent. */
  datatype Status = Status(code: Option<string>)

  /**
   * One authority's resolution: its status and its candidate values in the order the
   * platform ranked them. An absent candidate list is represented as the empty one.
   */
  datatype Resolution = Resolution(authority: string, status: Option<Status>, values: seq<ValueWrapper>)

  /** The resolutions of a slot; the per-authority list may be absent. */
  datatype Resolutions = Resolutions(resolutionsPerAuthority: Option<seq<Resolution>>)

  /** A recognised slot as the platform delivers it. */
  datatype Slot = Slot(
    name: string,
    value: Option<string>,
    confirmationStatus: ConfirmationStatus,
    resolutions: Option<Resolutions>)

  /** The keys of `order` are pairwise distinct and are exactly the keys of `entries`. */
  ghost predicate Enumerates(order: seq<string>, entries: map<string, Slot>)
  {
    && (forall i, j :: 0 <= i < j < |order| ==> order[i] != order[j])
    && (forall k :: k in order <==> k in entries)
  }

  /**
   * A JavaScript object from slot key to Slot: its entries, and its keys in
   * `Object.keys` order.
   */
  datatype SlotRecord = SlotRecord(order: seq<string>, entries: map<string, Slot>)
  type SlotTable = t: SlotRecord | Enumerates(t.order, t.entries) witness SlotRecord([], map[])

  datatype Intent = Intent(name: string, slots: Option<SlotTable>)

  /**
   * An inbound request: an intent request, or a request of any other type, identified
   * by its type tag only. An intent request's dialog state may be absent.
   */
  datatype RequestData =
    | IntentRequest(intent: Intent, dialogState: Option<string>)
    | OtherRequest(requestType: string)
  {
    /** The request's `type` field. */
    function Type(): string
    {
      if IntentRequest? then IntentType else requestType
    }
  }

  /** A request whose type tag agrees with its shape. */
  type Request = r: RequestData | r.IntentRequest? || r.requestType != IntentType
    witness OtherRequest(LaunchType)

  /**
   * A normalised slot: IMatchedSlotValue (isMatch = true) or IUnmatchedSlotValue
   * (isMatch = false). The matched `value` is the raw value under an unchecked cast,
   * so it is kept optional as well.
   */
  datatype SlotOutcome =
    | Matched(
        name: string,
        value: Option<string>,
        resolved: string,
        id: string,
        isAmbiguous: bool,
        values: seq<Value>,
        confirmationStatus: ConfirmationStatus)
    | Unmatched(
        name: string,
        value: Option<string>,
        confirmationStatus: ConfirmationStatus)
  {
    predicate IsMatch() { Matched? }
  }

  /** ISlotValues: slot name to outcome. */
  type SlotValues = map<string, SlotOutcome>

  /**
   * A request attribute: the slot outcomes the interceptor stores, or any other value
   * (the translator `t`, values of other features), which the model does not inspect.
   */
  datatype AttributeValue = SlotValuesAttribute(outcomes: SlotValues) | OtherAttribute(handle: nat)

  /** The parts of the SDK's handler input the helpers read and write. */
  class HandlerInput {
    var request: Request
    var requestAttributes: map<string, AttributeValue>

    constructor (request: Request, requestAttributes: map<string, AttributeValue>)
      ensures this.request == request && this.requestAttributes == requestAttributes
    {
      this.request := request;
      this.requestAttributes := requestAttributes;
    }
  }
}
