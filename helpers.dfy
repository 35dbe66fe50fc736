/**
 * The skill's helper library: request classifiers, the slot-resolution normaliser,
 * the slot reset helpers, the interjection wrapper and the error constructor.
 */
module Helpers {
  import opened Wrappers
  import opened Constants
  import opened Typings

  // ---------------------------------------------------------------------------
  // Request classifiers
  // ---------------------------------------------------------------------------

  /** True iff the request is an intent request whose intent is one of `intents`. */
  method IsIntent(request: Request, intents: seq<string>) returns (b: bool)
    ensures b <==> request.IntentRequest? && request.intent.name in intents
    ensures b ==> request.Type() == IntentType
  {
    if request.Type() == IntentType {
      var i := 0;
      while i < |intents|
        invariant 0 <= i <= |intents|
        invariant request.intent.name !in intents[..i]
      {
        if request.intent.name == intents[i] {
          return true;
        }
        i := i + 1;
      }
    }
    return false;
  }

  /** True iff the request's type tag is one of `types`. */
  method IsType(request: Request, types: seq<string>) returns (b: bool)
    ensures b <==> request.Type() in types
  {
    var i := 0;
    while i < |types|
      invariant 0 <= i <= |types|
      invariant request.Type() !in types[..i]
    {
      if request.Type() == types[i] {
        return true;
      }
      i := i + 1;
    }
    return false;
  }

  /** True iff the request is for `intent` and its dialog is in `state`. */
  function IsIntentWithDialogState(request: Request, intent: string, state: string): (b: bool)
    ensures b <==> request.IntentRequest? && request.intent.name == intent && request.dialogState == Some(state)
  {
    request.Type() == IntentType && request.intent.name == intent && request.dialogState == Some(state)
  }

  /** True iff the request is for `intent` and its dialog has finished. */
  function IsIntentWithCompleteDialog(request: Request, intent: string): (b: bool)
    ensures b <==> request.IntentRequest? && request.intent.name == intent && request.dialogState == Some(Completed)
  {
    IsIntentWithDialogState(request, intent, Completed)
  }

  /**
   * True iff the request is for `intent` and its dialog has not finished: the
   * complement of IsIntentWithCompleteDialog among the requests for `intent`.
   */
  function IsIntentWithIncompleteDialog(request: Request, intent: string): (b: bool)
    ensures b <==> request.IntentRequest? && request.intent.name == intent
                   && !IsIntentWithCompleteDialog(request, intent)
  {
    request.Type() == IntentType && request.intent.name == intent && request.dialogState != Some(Completed)
  }

  /** For a request for `intent`, exactly one of the two dialog predicates holds; for any other request neither does. */
  lemma DialogDichotomy(request: Request, intent: string)
    ensures request.IntentRequest? && request.intent.name == intent ==>
              IsIntentWithCompleteDialog(request, intent) != IsIntentWithIncompleteDialog(request, intent)
    ensures !(request.IntentRequest? && request.intent.name == intent) ==>
              !IsIntentWithCompleteDialog(request, intent) && !IsIntentWithIncompleteDialog(request, intent)
  {
  }

  // ---------------------------------------------------------------------------
  // Slot-resolution normaliser
  // ---------------------------------------------------------------------------

  /**
   * The first authority's status code, when every level on the way to it is present:
   * the resolutions, the per-authority list, its first element, the status and a
   * non-empty (truthy) code. None sends the slot to the unmatched branch.
   */
  function FirstStatusCode(slot: Slot): (code: Option<string>)
    ensures code.None? <==>
              || slot.resolutions.None?
              || slot.resolutions.value.resolutionsPerAuthority.None?
              || |slot.resolutions.value.resolutionsPerAuthority.value| == 0
              || slot.resolutions.value.resolutionsPerAuthority.value[0].status.None?
              || slot.resolutions.value.resolutionsPerAuthority.value[0].status.value.code.None?
              || slot.resolutions.value.resolutionsPerAuthority.value[0].status.value.code == Some("")
    ensures code.Some? ==> && slot.resolutions.Some?
                           && slot.resolutions.value.resolutionsPerAuthority.Some?
                           && |slot.resolutions.value.resolutionsPerAuthority.value| > 0
                           && slot.resolutions.value.resolutionsPerAuthority.value[0].status.Some?
                           && code == slot.resolutions.value.resolutionsPerAuthority.value[0].status.value.code
                           && code.value != ""
  {
    match slot.resolutions
    case None => None
    case Some(resolutions) =>
      match resolutions.resolutionsPerAuthority
      case None => None
      case Some(authorities) =>
        if |authorities| == 0 then None
        else
          match authorities[0].status
          case None => None
          case Some(status) =>
            match status.code
            case None => None
            case Some(c) => if c == "" then None else Some(c)
  }

  /** The first authority's candidate values. */
  function Candidates(slot: Slot): (candidates: seq<ValueWrapper>)
    requires FirstStatusCode(slot).Some?
  {
    slot.resolutions.value.resolutionsPerAuthority.value[0].values
  }

  /**
   * The normaliser reads the first candidate of a matched slot, so a slot whose
   * first authority reports a match must carry at least one candidate.
   */
  predicate HasCandidates(slot: Slot)
  {
    FirstStatusCode(slot) == Some(SuccessMatch) ==> |Candidates(slot)| > 0
  }

  predicate WellFormedTable(t: SlotTable)
  {
    forall k :: k in t.entries ==> HasCandidates(t.entries[k])
  }

  predicate WellFormedSlots(filledSlots: Option<SlotTable>)
  {
    filledSlots.Some? ==> WellFormedTable(filledSlots.value)
  }

  /** The candidates' values, unwrapped, in the original order. */
  function Unwrap(wrappers: seq<ValueWrapper>): (vs: seq<Value>)
    ensures |vs| == |wrappers|
    ensures forall i :: 0 <= i < |wrappers| ==> vs[i] == wrappers[i].value
  {
    seq(|wrappers|, i requires 0 <= i < |wrappers| => wrappers[i].value)
  }

  /** A matched outcome is flagged ambiguous exactly when it lists several candidates, and lists none otherwise. */
  predicate AmbiguityConsistent(o: SlotOutcome)
  {
    o.Matched? ==> (o.isAmbiguous <==> |o.values| > 1) && (!o.isAmbiguous ==> o.values == [])
  }

  /** The outcome of one slot; None when the slot is left out of the result. */
  function SlotOutcomeOf(slot: Slot): (r: Option<SlotOutcome>)
    requires HasCandidates(slot)
    ensures r.Some? ==> && r.value.name == slot.name
                        && r.value.value == slot.value
                        && r.value.confirmationStatus == slot.confirmationStatus
    ensures r.Some? ==> AmbiguityConsistent(r.value)
    ensures r.Some? && r.value.IsMatch() <==> FirstStatusCode(slot) == Some(SuccessMatch)
  {
    match FirstStatusCode(slot)
    case None => Some(Unmatched(slot.name, slot.value, slot.confirmationStatus))
    case Some(code) =>
      if code == SuccessMatch then
        var wrappers := Candidates(slot);
        if |wrappers| > 1 then
          Some(Matched(slot.name, slot.value, wrappers[0].value.name, wrappers[0].value.id,
                       true, Unwrap(wrappers), slot.confirmationStatus))
        else
          Some(Matched(slot.name, slot.value, wrappers[0].value.name, wrappers[0].value.id,
                       false, [], slot.confirmationStatus))
      else if code == SuccessNoMatch then
        Some(Unmatched(slot.name, slot.value, slot.confirmationStatus))
      else
        None
  }

  /** A match with several candidates: ambiguous, resolved to the first, listing all of them in order. */
  lemma MatchWithSeveralCandidates(slot: Slot)
    requires FirstStatusCode(slot) == Some(SuccessMatch) && |Candidates(slot)| > 1
    ensures var cs := Candidates(slot);
            SlotOutcomeOf(slot) == Some(Matched(slot.name, slot.value, cs[0].value.name, cs[0].value.id,
                                                true, Unwrap(cs), slot.confirmationStatus))
    ensures var o := SlotOutcomeOf(slot).value;
            |o.values| == |Candidates(slot)| && forall i :: 0 <= i < |o.values| ==> o.values[i] == Candidates(slot)[i].value
  {
  }

  /** A match with a single candidate: not ambiguous, resolved to it, with an empty list. */
  lemma MatchWithOneCandidate(slot: Slot)
    requires FirstStatusCode(slot) == Some(SuccessMatch) && |Candidates(slot)| == 1
    ensures var c := Candidates(slot)[0].value;
            SlotOutcomeOf(slot) == Some(Matched(slot.name, slot.value, c.name, c.id,
                                                false, [], slot.confirmationStatus))
  {
  }

  /** No match, or resolution data missing at some level: unmatched, raw value and confirmation kept. */
  lemma NoMatchOrMissing(slot: Slot)
    requires FirstStatusCode(slot) == None || FirstStatusCode(slot) == Some(SuccessNoMatch)
    ensures SlotOutcomeOf(slot) == Some(Unmatched(slot.name, slot.value, slot.confirmationStatus))
  {
  }

  /** Any other status code: the slot gets no outcome at all. */
  lemma OtherCodeDropped(slot: Slot)
    requires FirstStatusCode(slot).Some?
    requires FirstStatusCode(slot).value != SuccessMatch && FirstStatusCode(slot).value != SuccessNoMatch
    ensures SlotOutcomeOf(slot) == None
  {
  }

  /** The documented example: "Cola" matched against Coca Cola and Coca Cola Zero. */
  lemma ColaExample()
    ensures var cocaCola := Value("cocacola", "Coca Cola");
            var cocaColaZero := Value("cocacolazero", "Coca Cola Zero");
            var slot := Slot("drink", Some("Cola"), NotConfirmed,
                             Some(Resolutions(Some([Resolution("drinks", Some(Status(Some(SuccessMatch))),
                                                               [ValueWrapper(cocaCola), ValueWrapper(cocaColaZero)])]))));
            HasCandidates(slot) &&
            SlotOutcomeOf(slot) == Some(Matched("drink", Some("Cola"), "Coca Cola", "cocacola", true,
                                                [cocaCola, cocaColaZero], NotConfirmed))
  {
    var cocaCola := Value("cocacola", "Coca Cola");
    var cocaColaZero := Value("cocacolazero", "Coca Cola Zero");
    var wrappers := [ValueWrapper(cocaCola), ValueWrapper(cocaColaZero)];
    assert Unwrap(wrappers) == [cocaCola, cocaColaZero];
  }

  /** Every key in `order` is a key of `entries` whose slot the normaliser can read. */
  ghost predicate Readable(order: seq<string>, entries: map<string, Slot>)
  {
    forall i :: 0 <= i < |order| ==> order[i] in entries && HasCandidates(entries[order[i]])
  }

  /**
   * The outcomes after visiting the slots under `order` in turn: each slot's outcome
   * is stored under the slot's own name, overwriting an earlier one of that name.
   */
  function Normalize(order: seq<string>, entries: map<string, Slot>): (outcomes: SlotValues)
    requires Readable(order, entries)
  {
    if order == [] then map[]
    else
      var slot := entries[order[|order| - 1]];
      var earlier := Normalize(order[..|order| - 1], entries);
      match SlotOutcomeOf(slot)
      case None => earlier
      case Some(o) => earlier[slot.name := o]
  }

  lemma TableReadable(t: SlotTable)
    requires WellFormedTable(t)
    ensures Readable(t.order, t.entries)
  {
  }

  /** What GetSlotValues computes: the empty map for absent slots. */
  function NormalizedSlots(filledSlots: Option<SlotTable>): (outcomes: SlotValues)
    requires WellFormedSlots(filledSlots)
  {
    match filledSlots
    case None => map[]
    case Some(t) => TableReadable(t); Normalize(t.order, t.entries)
  }

  /** Parses the recognised slots into their outcomes, one key at a time. */
  method GetSlotValues(filledSlots: Option<SlotTable>) returns (slotValues: SlotValues)
    requires WellFormedSlots(filledSlots)
    ensures slotValues == NormalizedSlots(filledSlots)
  {
    slotValues := map[];
    if filledSlots.Some? {
      var table := filledSlots.value;
      var keys := table.order;
      TableReadable(table);
      var i := 0;
      while i < |keys|
        invariant 0 <= i <= |keys|
        invariant slotValues == Normalize(keys[..i], table.entries)
      {
        var slot := table.entries[keys[i]];
        var name := slot.name;
        var value := slot.value;
        var confirmationStatus := slot.confirmationStatus;
        var code := FirstStatusCode(slot);
        if code.Some? {
          if code.value == SuccessMatch {
            var valueWrappers := Candidates(slot);
            if |valueWrappers| > 1 {
              slotValues := slotValues[name := Matched(name, value, valueWrappers[0].value.name,
                                                       valueWrappers[0].value.id, true,
                                                       Unwrap(valueWrappers), confirmationStatus)];
            } else {
              slotValues := slotValues[name := Matched(name, value, valueWrappers[0].value.name,
                                                       valueWrappers[0].value.id, false, [],
                                                       confirmationStatus)];
            }
          } else if code.value == SuccessNoMatch {
            slotValues := slotValues[name := Unmatched(name, value, confirmationStatus)];
          }
        } else {
          slotValues := slotValues[name := Unmatched(name, value, confirmationStatus)];
        }
        assert keys[..i + 1][..i] == keys[..i];
        i := i + 1;
      }
      assert keys[..|keys|] == keys;
    }
  }

  /** The slot under the i-th key supplies an outcome for the name `n`. */
  ghost predicate Supplies(order: seq<string>, entries: map<string, Slot>, i: int, n: string)
    requires Readable(order, entries) && 0 <= i < |order|
  {
    entries[order[i]].name == n && SlotOutcomeOf(entries[order[i]]).Some?
  }

  /**
   * A name has an outcome iff some visited slot of that name supplies one, and the
   * outcome is the one of the LAST such slot.
   */
  lemma {:induction false} NormalizeLastWriterWins(order: seq<string>, entries: map<string, Slot>, n: string)
    requires Readable(order, entries)
    ensures n in Normalize(order, entries) <==> exists i :: 0 <= i < |order| && Supplies(order, entries, i, n)
    ensures n in Normalize(order, entries) ==>
              exists j :: && 0 <= j < |order| && Supplies(order, entries, j, n)
                          && SlotOutcomeOf(entries[order[j]]) == Some(Normalize(order, entries)[n])
                          && forall k :: j < k < |order| ==> !Supplies(order, entries, k, n)
  {
    if order != [] {
      var m := |order| - 1;
      var prefix := order[..m];
      assert Readable(prefix, entries);
      NormalizeLastWriterWins(prefix, entries, n);
      forall i | 0 <= i < m
        ensures Supplies(prefix, entries, i, n) == Supplies(order, entries, i, n)
      {
        assert prefix[i] == order[i];
      }
      if Supplies(order, entries, m, n) {
        assert Normalize(order, entries)[n] == SlotOutcomeOf(entries[order[m]]).value;
      } else if n in Normalize(prefix, entries) {
        var j :| && 0 <= j < m && Supplies(prefix, entries, j, n)
                 && SlotOutcomeOf(entries[prefix[j]]) == Some(Normalize(prefix, entries)[n])
                 && forall k :: j < k < m ==> !Supplies(prefix, entries, k, n);
        assert Supplies(order, entries, j, n);
      }
    }
  }

  /** Every outcome is stored under its own name and is ambiguity-consistent. */
  lemma {:induction false} NormalizeOutcomesWellFormed(order: seq<string>, entries: map<string, Slot>)
    requires Readable(order, entries)
    ensures forall n :: n in Normalize(order, entries) ==>
              Normalize(order, entries)[n].name == n && AmbiguityConsistent(Normalize(order, entries)[n])
  {
    if order != [] {
      assert Readable(order[..|order| - 1], entries);
      NormalizeOutcomesWellFormed(order[..|order| - 1], entries);
    }
  }

  /** Every key of the result is the name of some input slot. */
  lemma NormalizedKeysAreSlotNames(t: SlotTable, n: string)
    requires WellFormedTable(t)
    requires n in NormalizedSlots(Some(t))
    ensures exists k :: k in t.entries && t.entries[k].name == n
  {
    TableReadable(t);
    NormalizeLastWriterWins(t.order, t.entries, n);
    var i :| 0 <= i < |t.order| && Supplies(t.order, t.entries, i, n);
    assert t.order[i] in t.entries;
  }

  /** Every slot is stored under its key, as the platform names them. */
  ghost predicate NamedByKey(t: SlotTable)
  {
    forall k :: k in t.entries ==> t.entries[k].name == k
  }

  /**
   * When every slot is named by its key, each slot has exactly its own outcome under
   * its key, slots with an unrecognised status code have none, and there is nothing else.
   */
  lemma NormalizeByKey(t: SlotTable, k: string)
    requires WellFormedTable(t) && NamedByKey(t)
    ensures k in NormalizedSlots(Some(t)) ==> k in t.entries
    ensures k in t.entries ==>
              (k in NormalizedSlots(Some(t)) <==> SlotOutcomeOf(t.entries[k]).Some?)
    ensures k in NormalizedSlots(Some(t)) ==> NormalizedSlots(Some(t))[k] == SlotOutcomeOf(t.entries[k]).value
  {
    TableReadable(t);
    NormalizeLastWriterWins(t.order, t.entries, k);
    if k in t.entries {
      var i :| 0 <= i < |t.order| && t.order[i] == k;
      if SlotOutcomeOf(t.entries[k]).Some? {
        assert Supplies(t.order, t.entries, i, k);
      }
    }
    if k in NormalizedSlots(Some(t)) {
      var j :| && 0 <= j < |t.order| && Supplies(t.order, t.entries, j, k)
               && SlotOutcomeOf(t.entries[t.order[j]]) == Some(Normalize(t.order, t.entries)[k])
               && forall l :: j < l < |t.order| ==> !Supplies(t.order, t.entries, l, k);
      assert t.order[j] in t.entries;
    }
  }

  // ---------------------------------------------------------------------------
  // Slot reset
  // ---------------------------------------------------------------------------

  /** The slots with the value of every slot keyed by one of `names` set to "". */
  function ResetValues(t: SlotTable, names: set<string>): (r: SlotTable)
    ensures r.order == t.order && r.entries.Keys == t.entries.Keys
  {
    SlotRecord(t.order, map k | k in t.entries ::
                          if k in names then t.entries[k].(value := Some("")) else t.entries[k])
  }

  /** The request with the slots keyed by `names` reset; other requests are left as they are. */
  function ResetRequest(request: Request, names: set<string>): (r: Request)
  {
    match request
    case OtherRequest(_) => request
    case IntentRequest(intent, dialogState) =>
      match intent.slots
      case None => request
      case Some(t) => IntentRequest(intent.(slots := Some(ResetValues(t, names))), dialogState)
  }

  /**
   * Resetting blanks the value of exactly the slots keyed by `names`, changes no other
   * field of them, keeps the keys and their order, and leaves the rest of the request alone.
   */
  lemma ResetRequestEffect(request: Request, names: set<string>)
    ensures var r := ResetRequest(request, names);
            && r.Type() == request.Type()
            && (request.IntentRequest? ==> && r.intent.name == request.intent.name
                                           && r.dialogState == request.dialogState
                                           && r.intent.slots.Some? == request.intent.slots.Some?)
            && (!request.IntentRequest? || request.intent.slots.None? ==> r == request)
    ensures request.IntentRequest? && request.intent.slots.Some? ==>
              var before := request.intent.slots.value;
              var after := ResetRequest(request, names).intent.slots.value;
              && after.order == before.order && after.entries.Keys == before.entries.Keys
              && forall k :: k in before.entries ==>
                   && after.entries[k].value == (if k in names then Some("") else before.entries[k].value)
                   && after.entries[k].(value := None) == before.entries[k].(value := None)
  {
  }

  lemma ResetEmpty(request: Request)
    ensures ResetRequest(request, {}) == request
  {
    if request.IntentRequest? && request.intent.slots.Some? {
      var t := request.intent.slots.value;
      assert ResetValues(t, {}).entries == t.entries;
    }
  }

  /** Resetting by `a` and then by `b` is resetting by both at once, in either order. */
  lemma ResetCompose(request: Request, a: set<string>, b: set<string>)
    ensures ResetRequest(ResetRequest(request, a), b) == ResetRequest(request, a + b)
  {
    if request.IntentRequest? && request.intent.slots.Some? {
      var t := request.intent.slots.value;
      assert ResetValues(ResetValues(t, a), b).entries == ResetValues(t, a + b).entries;
    }
  }

  /** Resetting twice by the same names is resetting once. */
  lemma ResetIdempotent(request: Request, names: set<string>)
    ensures ResetRequest(ResetRequest(request, names), names) == ResetRequest(request, names)
  {
    ResetCompose(request, names, names);
    assert names + names == names;
  }

  /** Names that key no slot change nothing. */
  lemma ResetAbsentNames(request: Request, names: set<string>)
    requires request.IntentRequest? && request.intent.slots.Some? ==>
               forall k :: k in names ==> k !in request.intent.slots.value.entries
    ensures ResetRequest(request, names) == request
  {
    if request.IntentRequest? && request.intent.slots.Some? {
      var t := request.intent.slots.value;
      assert ResetValues(t, names).entries == t.entries;
    }
  }

  /** Sets the value of the slot keyed by `slotName`, if there is one, to "". */
  method ResetSlotValue(h: HandlerInput, slotName: string)
    requires h.request.IntentRequest?
    modifies h`request
    ensures h.request == ResetRequest(old(h.request), {slotName})
  {
    var intent := h.request.intent;
    if intent.slots.Some? {
      var slots := intent.slots.value;
      if slotName in slots.entries {
        var slot := slots.entries[slotName];
        var updated := SlotRecord(slots.order, slots.entries[slotName := slot.(value := Some(""))]);
        assert updated.entries == ResetValues(slots, {slotName}).entries;
        h.request := IntentRequest(intent.(slots := Some(updated)), h.request.dialogState);
      } else {
        ResetAbsentNames(h.request, {slotName});
      }
    }
  }

  /** The names carried by the unmatched outcomes under the keys `within`. */
  function UnmatchedNames(slots: SlotValues, within: set<string>): (names: set<string>)
    ensures forall n :: n in names <==>
              exists k :: k in within && k in slots && !slots[k].IsMatch() && slots[k].name == n
  {
    set k | k in within && k in slots && !slots[k].IsMatch() :: slots[k].name
  }

  /** Blanks the value of the request slot named by every unmatched outcome. */
  method ResetUnmatchedSlotValues(h: HandlerInput, slots: SlotValues)
    modifies h`request
    ensures h.request == ResetRequest(old(h.request), UnmatchedNames(slots, slots.Keys))
  {
    if h.request.Type() == IntentType {
      var remaining := slots.Keys;
      ResetEmpty(h.request);
      assert UnmatchedNames(slots, slots.Keys - remaining) == {};
      while remaining != {}
        invariant remaining <= slots.Keys
        invariant h.request.IntentRequest?
        invariant h.request == ResetRequest(old(h.request), UnmatchedNames(slots, slots.Keys - remaining))
        decreases remaining
      {
        var key :| key in remaining;
        var slot := slots[key];
        ghost var done := UnmatchedNames(slots, slots.Keys - remaining);
        if !slot.IsMatch() {
          ResetSlotValue(h, slot.name);
          ResetCompose(old(h.request), done, {slot.name});
          assert UnmatchedNames(slots, slots.Keys - (remaining - {key})) == done + {slot.name};
        } else {
          assert UnmatchedNames(slots, slots.Keys - (remaining - {key})) == done;
        }
        remaining := remaining - {key};
      }
      assert slots.Keys - remaining == slots.Keys;
    }
  }

  /**
   * When slots are named by their keys, the reset targets are exactly the keys of
   * the slots whose outcome is unmatched.
   */
  lemma UnmatchedNamesByKey(t: SlotTable)
    requires WellFormedTable(t) && NamedByKey(t)
    ensures var outcomes := NormalizedSlots(Some(t));
            forall k :: k in UnmatchedNames(outcomes, outcomes.Keys) <==>
              k in t.entries && SlotOutcomeOf(t.entries[k]).Some? && !SlotOutcomeOf(t.entries[k]).value.IsMatch()
  {
    var outcomes := NormalizedSlots(Some(t));
    TableReadable(t);
    NormalizeOutcomesWellFormed(t.order, t.entries);
    forall k ensures k in UnmatchedNames(outcomes, outcomes.Keys) <==>
                     k in t.entries && SlotOutcomeOf(t.entries[k]).Some? && !SlotOutcomeOf(t.entries[k]).value.IsMatch()
    {
      NormalizeByKey(t, k);
      if k in UnmatchedNames(outcomes, outcomes.Keys) {
        var k' :| k' in outcomes.Keys && !outcomes[k'].IsMatch() && outcomes[k'].name == k;
        NormalizeByKey(t, k');
      }
    }
  }

  /**
   * When a slot is not named by its key, the reset looks up the slot by the outcome's
   * name and can blank a slot whose own outcome is matched: here the unmatched slot
   * under key "a" is named "b", and the matched slot under key "b" loses its value.
   */
  lemma ResetMisnamedSlotExample()
    ensures var misnamed := Slot("b", Some("x"), NotConfirmed, None);
            var drink := Value("cocacola", "Coca Cola");
            var matched := Slot("c", Some("Cola"), NotConfirmed,
                                Some(Resolutions(Some([Resolution("drinks", Some(Status(Some(SuccessMatch))),
                                                                  [ValueWrapper(drink)])]))));
            var t: SlotTable := SlotRecord(["a", "b"], map["a" := misnamed, "b" := matched]);
            && WellFormedTable(t)
            && SlotOutcomeOf(matched).Some? && SlotOutcomeOf(matched).value.IsMatch()
            && var outcomes := NormalizedSlots(Some(t));
               var request: Request := IntentRequest(Intent("OrderIntent", Some(t)), None);
               ResetRequest(request, UnmatchedNames(outcomes, outcomes.Keys)).intent.slots.value.entries["b"].value == Some("")
  {
    var misnamed := Slot("b", Some("x"), NotConfirmed, None);
    var drink := Value("cocacola", "Coca Cola");
    var matched := Slot("c", Some("Cola"), NotConfirmed,
                        Some(Resolutions(Some([Resolution("drinks", Some(Status(Some(SuccessMatch))),
                                                          [ValueWrapper(drink)])]))));
    var t: SlotTable := SlotRecord(["a", "b"], map["a" := misnamed, "b" := matched]);
    TableReadable(t);
    var outcomes := NormalizedSlots(Some(t));
    var unmatched := Unmatched("b", Some("x"), NotConfirmed);
    assert SlotOutcomeOf(misnamed) == Some(unmatched);
    assert ["a", "b"][..1] == ["a"];
    assert ["a"][..0] == [];
    assert Normalize(["a"], t.entries) == map["b" := unmatched];
    assert outcomes == map["b" := unmatched]["c" := SlotOutcomeOf(matched).value];
    assert outcomes["b"] == unmatched;
    assert "b" in UnmatchedNames(outcomes, outcomes.Keys);
  }

  /**
   * Normalising a request's slots and resetting the unmatched ones blanks the value of
   * exactly the slots with an unmatched outcome.
   */
  lemma ResetAfterNormalize(request: Request, k: string)
    requires request.IntentRequest? && request.intent.slots.Some?
    requires WellFormedTable(request.intent.slots.value) && NamedByKey(request.intent.slots.value)
    requires k in request.intent.slots.value.entries
    ensures var slot := request.intent.slots.value.entries[k];
            var outcomes := NormalizedSlots(request.intent.slots);
            var after := ResetRequest(request, UnmatchedNames(outcomes, outcomes.Keys)).intent.slots.value;
            after.entries[k].value ==
              (if SlotOutcomeOf(slot).Some? && !SlotOutcomeOf(slot).value.IsMatch() then Some("") else slot.value)
  {
    var t := request.intent.slots.value;
    var outcomes := NormalizedSlots(request.intent.slots);
    var names := UnmatchedNames(outcomes, outcomes.Keys);
    NormalizeByKey(t, k);
    ResetRequestEffect(request, names);
    if k in names {
      var k' :| k' in outcomes.Keys && !outcomes[k'].IsMatch() && outcomes[k'].name == k;
      NormalizeByKey(t, k');
    }
  }

  /** A reset changes only values, so every slot keeps its status code and stays readable. */
  lemma ResetKeepsWellFormed(t: SlotTable, names: set<string>)
    requires WellFormedTable(t)
    ensures WellFormedTable(ResetValues(t, names))
    ensures forall k :: k in t.entries ==>
              FirstStatusCode(ResetValues(t, names).entries[k]) == FirstStatusCode(t.entries[k])
  {
    forall k | k in t.entries
      ensures FirstStatusCode(ResetValues(t, names).entries[k]) == FirstStatusCode(t.entries[k])
    {
    }
  }

  /** Two slots that either both have no outcome, or have outcomes of the same name and kind. */
  ghost predicate SameShape(a: Slot, b: Slot)
    requires HasCandidates(a) && HasCandidates(b)
  {
    && SlotOutcomeOf(a).Some? == SlotOutcomeOf(b).Some?
    && (SlotOutcomeOf(a).Some? ==>
          SlotOutcomeOf(a).value.name == SlotOutcomeOf(b).value.name &&
          SlotOutcomeOf(a).value.IsMatch() == SlotOutcomeOf(b).value.IsMatch())
  }

  /** Normalising slots of the same shape gives the same names, with outcomes of the same kind. */
  lemma {:induction false} NormalizeSameShape(order: seq<string>, e1: map<string, Slot>, e2: map<string, Slot>)
    requires Readable(order, e1) && Readable(order, e2)
    requires forall i :: 0 <= i < |order| ==> SameShape(e1[order[i]], e2[order[i]])
    ensures Normalize(order, e2).Keys == Normalize(order, e1).Keys
    ensures forall n :: n in Normalize(order, e1) ==>
              Normalize(order, e2)[n].IsMatch() == Normalize(order, e1)[n].IsMatch()
  {
    if order != [] {
      var prefix := order[..|order| - 1];
      assert Readable(prefix, e1) && Readable(prefix, e2);
      assert forall i :: 0 <= i < |prefix| ==> prefix[i] == order[i];
      NormalizeSameShape(prefix, e1, e2);
    }
  }

  /** Re-normalising after a reset gives the same names, with the same kind of outcome under each. */
  lemma NormalizeAfterReset(t: SlotTable, names: set<string>)
    requires WellFormedTable(t)
    ensures var reset := ResetValues(t, names);
            && WellFormedTable(reset)
            && NormalizedSlots(Some(reset)).Keys == NormalizedSlots(Some(t)).Keys
            && forall n :: n in NormalizedSlots(Some(t)) ==>
                 NormalizedSlots(Some(reset))[n].IsMatch() == NormalizedSlots(Some(t))[n].IsMatch()
  {
    var reset := ResetValues(t, names);
    ResetKeepsWellFormed(t, names);
    TableReadable(t);
    TableReadable(reset);
    forall i | 0 <= i < |t.order|
      ensures SameShape(t.entries[t.order[i]], reset.entries[t.order[i]])
    {
      ResetSlotOutcome(t.entries[t.order[i]], Some(""));
    }
    NormalizeSameShape(t.order, t.entries, reset.entries);
  }

  /** Changing a slot's value keeps whether it has an outcome, its name and its kind. */
  lemma ResetSlotOutcome(slot: Slot, v: Option<string>)
    requires HasCandidates(slot)
    ensures HasCandidates(slot.(value := v))
    ensures SlotOutcomeOf(slot.(value := v)).Some? == SlotOutcomeOf(slot).Some?
    ensures SlotOutcomeOf(slot).Some? ==>
              && SlotOutcomeOf(slot.(value := v)).value.name == slot.name
              && SlotOutcomeOf(slot.(value := v)).value.IsMatch() == SlotOutcomeOf(slot).value.IsMatch()
  {
    assert FirstStatusCode(slot.(value := v)) == FirstStatusCode(slot);
  }

  // ---------------------------------------------------------------------------
  // Speech and errors
  // ---------------------------------------------------------------------------

  const InterjectionOpen: string := "<say-as interpret-as=\"interjection\">"
  const InterjectionClose: string := "</say-as>"

  /** Wraps `str` as an SSML interjection; `str` stands unchanged between the two tags. */
  function Interject(str: string): (r: string)
    ensures |r| == |InterjectionOpen| + |str| + |InterjectionClose|
    ensures r[..|InterjectionOpen|] == InterjectionOpen
    ensures r[|InterjectionOpen|..|r| - |InterjectionClose|] == str
    ensures r[|r| - |InterjectionClose|..] == InterjectionClose
  {
    InterjectionOpen + str + InterjectionClose
  }

  /** Different strings give different interjections. */
  lemma InterjectInjective(a: string, b: string)
    requires Interject(a) == Interject(b)
    ensures a == b
  {
  }

  /** A JavaScript Error: its `name` (the error kind) and its message. */
  datatype Error = Error(name: string, message: string)

  const DefaultErrorMessage: string := "Something unexpected happened."

  /**
   * An error with the given message and kind; an omitted argument takes its default,
   * the generic message and the Unknown kind.
   */
  function CreateError(msg: Option<string>, errorType: Option<string>): (e: Error)
    ensures e.message == msg.GetOr(DefaultErrorMessage)
    ensures errorType.Some? ==> e.name == errorType.value
    ensures errorType.None? ==> e.name == UnknownError
    ensures e.name == UnexpectedError <==> errorType == Some(UnexpectedError)
  {
    Error(errorType.GetOr(UnknownError), msg.GetOr(DefaultErrorMessage))
  }
}
