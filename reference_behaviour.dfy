/** The per-type singleton slot of `ReferenceBehaviour<T>`
    (ReferenceBehaviour.cs): the first instance enabled while the slot is
    empty becomes `Ref`, any other instance enabled meanwhile is reported and
    deactivated, and destroying any instance empties the slot. */
module ReferenceBehaviour {
  import opened Wrappers
  import opened Text
  import DebugLog

  // ---------------------------------------------------------------------------
  // The slot as a value

  /** The slot after `InitializeReference` of `x`: an empty slot takes `x`,
      an occupied one is kept. */
  function Enabled<T(==)>(slot: Option<T>, x: T): (r: Option<T>)
    ensures r.Some?
    ensures slot.Some? ==> r == slot
  {
    if slot.None? then Some(x) else slot
  }

  /** `x` is a duplicate: the slot holds another instance. */
  predicate IsDuplicate<T(==)>(slot: Option<T>, x: T) {
    slot.Some? && slot.value != x
  }

  /** An enabling takes the slot or is reported as a duplicate, never both,
      and only an instance that is not registered is a duplicate. */
  lemma EnableTakesOrRejects<T>(slot: Option<T>, x: T)
    ensures Enabled(slot, x) == Some(x) <==> !IsDuplicate(slot, x)
    ensures Enabled(slot, x) == Some(x) || Enabled(slot, x) == slot
  {
  }

  /** Enabling the registered instance again changes nothing and reports
      nothing. */
  lemma EnableAgain<T>(slot: Option<T>, x: T)
    ensures Enabled(Enabled(slot, x), x) == Enabled(slot, x)
    ensures IsDuplicate(Enabled(slot, x), x) <==> IsDuplicate(slot, x)
  {
  }

  /** What happens to a slot: an instance is enabled or destroyed. */
  datatype Event<T> = Enable(instance: T) | Destroy(instance: T)

  /** The slot after a run of events, oldest first. */
  function Run<T(==)>(slot: Option<T>, events: seq<Event<T>>): Option<T>
    decreases |events|
  {
    if events == [] then slot
    else
      var last := events[|events| - 1];
      var before := Run(slot, events[..|events| - 1]);
      match last
      case Enable(x) => Enabled(before, x)
      case Destroy(_) => None
  }

  /** The first instance enabled in a run, if any. */
  function FirstEnabled<T>(events: seq<Event<T>>): (r: Option<T>)
    ensures r.Some? ==> exists i | 0 <= i < |events| ::
      events[i] == Enable(r.value) && forall j | 0 <= j < i :: !events[j].Enable?
    ensures r.None? ==> forall i | 0 <= i < |events| :: !events[i].Enable?
  {
    if events == [] then None
    else if events[0].Enable? then Some(events[0].instance)
    else FirstEnabled(events[1..])
  }

  predicate NoDestroy<T>(events: seq<Event<T>>) {
    forall i | 0 <= i < |events| :: events[i].Enable?
  }

  /** Runs compose. */
  lemma {:induction false} RunAppend<T>(slot: Option<T>, a: seq<Event<T>>, b: seq<Event<T>>)
    ensures Run(slot, a + b) == Run(Run(slot, a), b)
    decreases |b|
  {
    if b == [] {
      assert a + b == a;
    } else {
      assert (a + b)[..|a + b| - 1] == a + b[..|b| - 1];
      RunAppend(slot, a, b[..|b| - 1]);
    }
  }

  /** Without destruction an occupied slot keeps its instance, and an empty
      slot ends up holding the first instance enabled. */
  lemma {:induction false} FirstEnabledWins<T>(slot: Option<T>, events: seq<Event<T>>)
    requires NoDestroy(events)
    ensures Run(slot, events) == if slot.Some? then slot else FirstEnabled(events)
    decreases |events|
  {
    if events != [] {
      var e := events[0];
      var rest := events[1..];
      assert events == [e] + rest;
      RunAppend(slot, [e], rest);
      assert Run(slot, [e]) == Enabled(slot, e.instance) by {
        assert [e][..0] == [];
      }
      FirstEnabledWins(Enabled(slot, e.instance), rest);
    }
  }

  /** A destruction of any instance, registered or not, empties the slot, and
      afterwards the first instance enabled takes it. */
  lemma DestroyResets<T>(slot: Option<T>, before: seq<Event<T>>, y: T, after: seq<Event<T>>)
    requires NoDestroy(after)
    ensures Run(slot, before + [Destroy(y)] + after) == FirstEnabled(after)
  {
    RunAppend(slot, before + [Destroy(y)], after);
    assert (before + [Destroy(y)])[..|before + [Destroy(y)]| - 1] == before;
    FirstEnabledWins(None, after);
  }

  // ---------------------------------------------------------------------------
  // The messages

  /** The error logged for a duplicate. */
  function DuplicateMessage(typeName: string, objectName: string): string {
    "Detected duplicate of " + typeName + " on " + objectName
  }

  /** The error `Ref` logs for an empty slot. */
  function NullMessage(typeName: string): string {
    "Reference of " + typeName + " is null"
  }

  /** Neither message is blank, so each is printed when logged. */
  lemma MessagesNotBlank(typeName: string, objectName: string)
    ensures !IsNullOrWhiteSpace(Some(DuplicateMessage(typeName, objectName)))
    ensures !IsNullOrWhiteSpace(Some(NullMessage(typeName)))
  {
    assert !IsWhiteSpace(DuplicateMessage(typeName, objectName)[0]);
    assert !IsWhiteSpace(NullMessage(typeName)[0]);
  }

  /** `Ref` logs, through `DebugLog.Assert(state, null, ...)`, one error line
      exactly when the slot is empty (in the editor), and nothing otherwise. */
  lemma RefLogsOnlyWhenEmpty(isEditor: bool, occupied: bool, typeName: string)
    ensures var out := DebugLog.Output(isEditor, DebugLog.AssertCall(occupied, None, Some(NullMessage(typeName))));
      && (out == [] <==> occupied || !isEditor)
      && (out != [] ==> out == [DebugLog.Entry(DebugLog.ErrorChannel, DebugLog.Line(DebugLog.Error, NullMessage(typeName)))])
  {
    MessagesNotBlank(typeName, "");
  }

  // ---------------------------------------------------------------------------
  // The component and the static slot

  /** One component instance on a game object. */
  class Behaviour {
    /** `gameObject.name`. */
    const objectName: string
    /** `gameObject.activeSelf`. */
    var active: bool

    constructor (objectName: string)
      ensures this.objectName == objectName && active
    {
      this.objectName := objectName;
      active := true;
    }
  }

  /** The static `_ref` of one component type `T`, with the console its
      messages go to. */
  class Slot {
    /** `typeof(T).Name`. */
    const typeName: string
    const console: DebugLog.Console
    /** `_ref`; `None` is `null`. */
    var current: Option<Behaviour>

    constructor (typeName: string, console: DebugLog.Console)
      ensures this.typeName == typeName && this.console == console && current.None?
    {
      this.typeName := typeName;
      this.console := console;
      current := None;
    }

    /** `OnEnable`, that is `InitializeReference`. */
    method InitializeReference(b: Behaviour)
      modifies this, b, console
      ensures current == Enabled(old(current), b)
      ensures b.active == (old(b.active) && !IsDuplicate(old(current), b))
      ensures console.subscribed == old(console.subscribed)
      ensures console.entries == old(console.entries)
        + (if IsDuplicate(old(current), b)
           then DebugLog.Output(console.isEditor, DebugLog.ErrorCall(Some(DuplicateMessage(typeName, b.objectName))))
           else [])
      ensures console.raised == old(console.raised)
        + (if IsDuplicate(old(current), b)
           then DebugLog.Notified(console.isEditor, console.subscribed, DebugLog.ErrorCall(Some(DuplicateMessage(typeName, b.objectName))))
           else [])
    {
      if current.None? {
        current := Some(b);
        return;
      }
      if current.value != b {
        console.Error(Some(DuplicateMessage(typeName, b.objectName)));
        b.active := false;
      }
    }

    /** `OnDestroy`, that is `Cleanup`: empties the slot whichever instance is
        destroyed. */
    method Cleanup(b: Behaviour)
      modifies this
      ensures current.None?
    {
      current := None;
    }

    /** `ValidateReference`: whether the slot is occupied, logging an error
        when it is not. */
    method ValidateReference() returns (state: bool)
      modifies console
      ensures state <==> current.Some?
      ensures console.subscribed == old(console.subscribed)
      ensures console.entries == old(console.entries)
        + DebugLog.Output(console.isEditor, DebugLog.AssertCall(state, None, Some(NullMessage(typeName))))
      ensures console.raised == old(console.raised)
        + DebugLog.Notified(console.isEditor, console.subscribed, DebugLog.AssertCall(state, None, Some(NullMessage(typeName))))
    {
      state := current.Some?;
      console.Assert(state, None, Some(NullMessage(typeName)));
    }

    /** The `Ref` getter: the slot, unchanged, after validating it. */
    method Ref() returns (r: Option<Behaviour>)
      modifies console
      ensures r == current
      ensures console.subscribed == old(console.subscribed)
      ensures console.entries == old(console.entries)
        + DebugLog.Output(console.isEditor, DebugLog.AssertCall(current.Some?, None, Some(NullMessage(typeName))))
      ensures console.raised == old(console.raised)
        + DebugLog.Notified(console.isEditor, console.subscribed, DebugLog.AssertCall(current.Some?, None, Some(NullMessage(typeName))))
    {
      var _ := ValidateReference();
      r := current;
    }
  }
}
