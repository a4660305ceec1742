/**
 * EC_InputMapper: a table from (key sequence, key event type) to an entity
 * action, and the rule that turns a key event into at most one action
 * invocation.  A key sequence is its integer key code (a Qt key or'ed with
 * modifier bits); the empty sequence is code 0.
 */
module InputMapperModel {
  import opened Wrappers

  type KeyCode = bv32

  /** The key event kinds the mapper tells apart. */
  datatype EventType = KeyPressed | KeyDown | KeyReleased

  /** A key event: the key, the modifier bits held, its kind and how many presses it repeats. */
  datatype KeyEvent = KeyEvent(keyCode: KeyCode, modifiers: KeyCode, eventType: EventType, keyPressCount: nat)

  /** ActionInvocation: an action name and its execution type (0: the component's default). */
  datatype ActionInvocation = ActionInvocation(name: string, executionType: int)

  type Mappings = map<(KeyCode, EventType), ActionInvocation>

  /** The attributes of the component that HandleKeyEvent reads. */
  datatype Settings = Settings(
    enabled: bool,
    keyrepeatTrigger: bool,
    modifiersEnabled: bool,
    executionType: int,
    suppressKeyEvents: bool)

  /** The constructor's attribute values. */
  const DefaultSettings := Settings(true, true, true, 1, false)

  /** What handling a key event does: the action executed, with its execution type, and whether the event is suppressed. */
  datatype Outcome = Outcome(invoked: Option<(string, int)>, suppressed: bool)

  /** A repeated press that the settings say to ignore. */
  predicate IgnoredRepeat(s: Settings, e: KeyEvent)
  {
    !s.keyrepeatTrigger && e.eventType == KeyPressed && e.keyPressCount > 1
  }

  /**
   * The key sequence looked up: with modifiers told apart, the key with its
   * modifiers, except for a release, which is looked up by the bare key.
   */
  function LookupKey(s: Settings, e: KeyEvent): (k: KeyCode)
    ensures !s.modifiersEnabled || e.eventType == KeyReleased ==> k == e.keyCode
    ensures s.modifiersEnabled && e.eventType != KeyReleased ==> k == e.keyCode | e.modifiers
  {
    if s.modifiersEnabled && e.eventType != KeyReleased then e.keyCode | e.modifiers else e.keyCode
  }

  /**
   * HandleKeyEvent: nothing when disabled, for an ignored repeat, when no
   * mapping exists for the looked-up key and event type, or without a parent
   * entity; otherwise the mapped action runs with its own execution type, or
   * the component's when that is 0, and the event is suppressed exactly when
   * the settings ask for it.
   */
  function HandleKeyEvent(s: Settings, m: Mappings, e: KeyEvent, hasParent: bool): (r: Outcome)
    ensures r.invoked.Some? <==>
              s.enabled && !IgnoredRepeat(s, e) && (LookupKey(s, e), e.eventType) in m && hasParent
    ensures r.suppressed <==> r.invoked.Some? && s.suppressKeyEvents
    ensures r.invoked.Some? ==>
              var inv := m[(LookupKey(s, e), e.eventType)];
              r.invoked.value.0 == inv.name &&
              r.invoked.value.1 == (if inv.executionType == 0 then s.executionType else inv.executionType)
  {
    if !s.enabled || IgnoredRepeat(s, e) then Outcome(None, false)
    else
      var key := (LookupKey(s, e), e.eventType);
      if key !in m || !hasParent then Outcome(None, false)
      else
        var inv := m[key];
        var execType := if inv.executionType == 0 then s.executionType else inv.executionType;
        Outcome(Some((inv.name, execType)), s.suppressKeyEvents)
  }

  /** The component's state: its settings and the mapping table. */
  class InputMapper {
    var settings: Settings
    var mappings: Mappings

    constructor ()
      ensures settings == DefaultSettings && mappings == map[]
    {
      settings := DefaultSettings;
      mappings := map[];
    }

    /** RegisterMapping(key sequence): stores or overwrites the entry for (key, eventType) alone. */
    method RegisterMapping(keySeq: KeyCode, action: string, eventType: EventType, executionType: int)
      modifies this`mappings
      ensures mappings == old(mappings)[(keySeq, eventType) := ActionInvocation(action, executionType)]
      ensures forall k :: k != (keySeq, eventType) ==> (k in mappings <==> k in old(mappings))
      ensures forall k :: k != (keySeq, eventType) && k in mappings ==> mappings[k] == old(mappings)[k]
    {
      mappings := mappings[(keySeq, eventType) := ActionInvocation(action, executionType)];
    }

    /** RegisterMapping(text): parsed is the key sequence the text reads as; an empty one registers nothing. */
    method RegisterMappingFromText(parsed: KeyCode, action: string, eventType: EventType, executionType: int)
      modifies this`mappings
      ensures parsed == 0 ==> mappings == old(mappings)
      ensures parsed != 0 ==> mappings == old(mappings)[(parsed, eventType) := ActionInvocation(action, executionType)]
    {
      if parsed != 0 {
        RegisterMapping(parsed, action, eventType, executionType);
      }
    }

    /** RemoveMapping: erases the entry for (key, eventType), if any, and nothing else. */
    method RemoveMapping(keySeq: KeyCode, eventType: EventType)
      modifies this`mappings
      ensures mappings == old(mappings) - {(keySeq, eventType)}
      ensures (keySeq, eventType) !in old(mappings) ==> mappings == old(mappings)
    {
      if (keySeq, eventType) in mappings {
        mappings := mappings - {(keySeq, eventType)};
      }
    }
  }

  /** A registered mapping is what a matching event invokes, with its execution type unless that is 0. */
  lemma RegisteredInvoked(s: Settings, m: Mappings, e: KeyEvent, action: string, executionType: int)
    requires s.enabled && !IgnoredRepeat(s, e)
    ensures var m' := m[(LookupKey(s, e), e.eventType) := ActionInvocation(action, executionType)];
            HandleKeyEvent(s, m', e, true) ==
              Outcome(Some((action, if executionType == 0 then s.executionType else executionType)), s.suppressKeyEvents)
  {
  }

  /** After RemoveMapping of the looked-up entry, the event invokes nothing and is not suppressed. */
  lemma RemovedNotInvoked(s: Settings, m: Mappings, e: KeyEvent, hasParent: bool)
    ensures HandleKeyEvent(s, m - {(LookupKey(s, e), e.eventType)}, e, hasParent) == Outcome(None, false)
  {
  }

  /** A release is handled the same whatever modifiers are held. */
  lemma ReleaseIgnoresModifiers(s: Settings, m: Mappings, e: KeyEvent, mods: KeyCode, hasParent: bool)
    requires e.eventType == KeyReleased
    ensures HandleKeyEvent(s, m, e, hasParent) == HandleKeyEvent(s, m, e.(modifiers := mods), hasParent)
  {
  }

  /** With modifiers not told apart, every event is handled as its bare key. */
  lemma ModifiersDisabledBareKey(s: Settings, m: Mappings, e: KeyEvent, hasParent: bool)
    requires !s.modifiersEnabled
    ensures HandleKeyEvent(s, m, e, hasParent) == HandleKeyEvent(s, m, e.(modifiers := 0), hasParent)
  {
  }

  /**
   * With modifiers told apart, a press with modifiers held does not reach a
   * mapping registered only for the bare key (E versus Shift+E), provided
   * the modifiers add a bit the key lacks.
   */
  lemma ModifiedPressMissesBareKey(s: Settings, e: KeyEvent, a: ActionInvocation, hasParent: bool)
    requires s.modifiersEnabled && e.eventType != KeyReleased
    requires e.keyCode | e.modifiers != e.keyCode
    ensures HandleKeyEvent(s, map[(e.keyCode, e.eventType) := a], e, hasParent).invoked == None
  {
  }
}
