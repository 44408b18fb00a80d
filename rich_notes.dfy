/**
 * The echo guard of the rich-text notes editor. The editor is abstracted to the
 * HTML string it holds. Three kinds of event drive it: the editor's update
 * callback (after a user edit, or on its own), the effect that runs when the
 * `value` prop changes, and the deferred callback that clears the guard flag.
 * While the flag is set, updates are not reported through `onChange`, so a
 * programmatic load is never echoed back to the parent.
 */
module RichNotes {
  import opened Options

  /** The editor's HTML, the flag `isSettingFromOutside.current`, and how many deferred
      resets are scheduled and have not run yet. */
  datatype Guard = Guard(html: string, settingFromOutside: bool, pendingResets: nat)

  datatype Event =
    | Update                       // the editor calls `onUpdate` with its current content
    | Edit(html: string)           // the user changes the document; the editor then calls `onUpdate`
    | Load(value: Option<string>)  // the effect runs with a new `value` prop
    | Reset                        // a scheduled `setTimeout(..., 0)` callback runs

  /** `value || ""`: a null or undefined value is the empty document. */
  function Incoming(value: Option<string>): string {
    value.GetOr("")
  }

  /** The state right after the editor is created with `content: value || ""`. */
  function Initial(value: Option<string>): Guard {
    Guard(Incoming(value), false, 0)
  }

  /** What `onUpdate` passes to `onChange` for content `html`, if anything. */
  function Report(g: Guard, html: string): Option<string> {
    if g.settingFromOutside then None else Some(html)
  }

  /** One event: the state after it, and the argument of the `onChange` call it makes, if any.
      A reset with none scheduled cannot happen; it is taken to change nothing. */
  function Step(g: Guard, e: Event): (Guard, Option<string>) {
    match e
    case Update => (g, Report(g, g.html))
    case Edit(h) => (g.(html := h), Report(g, h))
    case Load(v) =>
      if Incoming(v) == g.html then (g, None)
      else (Guard(Incoming(v), true, g.pendingResets + 1), None)
    case Reset =>
      if g.pendingResets == 0 then (g, None)
      else (g.(settingFromOutside := false, pendingResets := g.pendingResets - 1), None)
  }

  function Emitted(out: Option<string>): seq<string> {
    if out.Some? then [out.value] else []
  }

  /** A sequence of events: the final state and every `onChange` argument, in order. */
  function Run(g: Guard, events: seq<Event>): (Guard, seq<string>)
    decreases |events|
  {
    if events == [] then (g, [])
    else
      var (g1, out) := Step(g, events[0]);
      var (g2, outs) := Run(g1, events[1..]);
      (g2, Emitted(out) + outs)
  }

  /** While the flag is set, neither an update nor a user edit reaches `onChange`. */
  lemma GuardSuppressesUpdates(g: Guard, h: string)
    requires g.settingFromOutside
    ensures Step(g, Update).1 == None && Step(g, Edit(h)).1 == None
    ensures Step(g, Update).0 == g && Step(g, Edit(h)).0 == g.(html := h)
  {
  }

  /** With the flag clear, each update reports the current content exactly once. */
  lemma UpdatesReportWhenClear(g: Guard, h: string)
    requires !g.settingFromOutside
    ensures Run(g, [Update]).1 == [g.html]
    ensures Run(g, [Edit(h)]).1 == [h] && Run(g, [Edit(h)]).0 == g.(html := h)
  {
  }

  /** A value equal to the content loads nothing and leaves the flag alone; a null value is
      treated as the empty document. */
  lemma SameValueIsIgnored(g: Guard, v: Option<string>)
    requires Incoming(v) == g.html
    ensures Step(g, Load(v)) == (g, None)
    ensures Step(g, Load(None)) == Step(g, Load(Some("")))
  {
  }

  /** A different value replaces the content, raises the flag and schedules one reset,
      without any `onChange` call. */
  lemma NewValueLoadsSilently(g: Guard, v: Option<string>)
    requires Incoming(v) != g.html
    ensures var (g', out) := Step(g, Load(v));
      g'.html == Incoming(v) && g'.settingFromOutside && g'.pendingResets == g.pendingResets + 1 && out == None
  {
  }

  /** The deferred reset clears the flag, after which a user edit flows to `onChange` again. */
  lemma ResetReopensFlow(g: Guard, h: string)
    requires g.pendingResets > 0
    ensures !Step(g, Reset).0.settingFromOutside
    ensures Run(g, [Reset, Edit(h)]).1 == [h]
  {
    var g1 := Step(g, Reset).0;
    assert Run(g1, [Edit(h)]).1 == [h];
    assert [Reset, Edit(h)][1..] == [Edit(h)];
  }

  /** Once a new value has been loaded, no event before the next reset produces an `onChange`
      call: neither updates, nor edits, nor further loads. */
  lemma {:induction false} NoEchoBeforeReset(g: Guard, events: seq<Event>)
    requires g.settingFromOutside
    requires forall i :: 0 <= i < |events| ==> !events[i].Reset?
    ensures Run(g, events).1 == []
    ensures Run(g, events).0.settingFromOutside
    decreases |events|
  {
    if events != [] {
      var (g1, out) := Step(g, events[0]);
      assert g1.settingFromOutside && out == None;
      NoEchoBeforeReset(g1, events[1..]);
    }
  }

  /** The scenario of a programmatic load: loading a value that differs from the content and
      then running any events short of the reset never reports anything. */
  lemma LoadIsNeverEchoed(g: Guard, v: Option<string>, events: seq<Event>)
    requires Incoming(v) != g.html
    requires forall i :: 0 <= i < |events| ==> !events[i].Reset?
    ensures Run(g, [Load(v)] + events).1 == []
  {
    var g1 := Step(g, Load(v)).0;
    NoEchoBeforeReset(g1, events);
    assert ([Load(v)] + events)[1..] == events;
  }

  /** The editor component: its content, the guard flag, the scheduled resets, and the
      arguments of the `onChange` calls made so far. */
  class Editor {
    var html: string
    var settingFromOutside: bool
    var pendingResets: nat
    var changes: seq<string>

    function State(): Guard
      reads this
    {
      Guard(html, settingFromOutside, pendingResets)
    }

    /** `useEditor({ content: value || "", ... })`. */
    constructor (value: Option<string>)
      ensures State() == Initial(value) && changes == []
    {
      html := Incoming(value);
      settingFromOutside := false;
      pendingResets := 0;
      changes := [];
    }

    /** `onUpdate`: reports the content unless the flag is set. */
    method OnUpdate()
      modifies this`changes
      ensures State() == Step(old(State()), Update).0
      ensures changes == old(changes) + Emitted(Step(old(State()), Update).1)
    {
      if settingFromOutside {
        return;
      }
      changes := changes + [html];
    }

    /** A user edit sets the content; the editor then calls `onUpdate`. */
    method UserEdit(h: string)
      modifies this`html, this`changes
      ensures State() == Step(old(State()), Edit(h)).0
      ensures changes == old(changes) + Emitted(Step(old(State()), Edit(h)).1)
    {
      html := h;
      OnUpdate();
    }

    /** The effect on `[value, editor]`: replaces differing content with the flag raised and
        schedules the reset. */
    method ValueChanged(value: Option<string>)
      modifies this`html, this`settingFromOutside, this`pendingResets
      ensures State() == Step(old(State()), Load(value)).0
      ensures changes == old(changes)
    {
      var next := Incoming(value);
      var current := html;
      if next == current {
        return;
      }
      settingFromOutside := true;
      html := next;
      pendingResets := pendingResets + 1;
    }

    /** The callback given to `setTimeout`: clears the flag. */
    method ResetFires()
      requires pendingResets > 0
      modifies this`settingFromOutside, this`pendingResets
      ensures State() == Step(old(State()), Reset).0
      ensures changes == old(changes)
    {
      settingFromOutside := false;
      pendingResets := pendingResets - 1;
    }
  }
}
