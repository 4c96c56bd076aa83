/**
 * Loading, autosaving and clearing the document. The autosave effect depends on
 * the buffer and on the loaded flag: whenever either changes, the previous
 * effect's cleanup cancels the pending save, and, once loaded, a save of the
 * current buffer is scheduled. Storage is one slot that holds a text or nothing;
 * the delay is the `SaveFires` event, the pending save's timer firing. The
 * sample document is a parameter.
 */
module Autosave {
  import opened JsString

  /**
   * `isLoaded`, `markdown`, the save `saveTimeoutRef` holds (if pending), the
   * storage slot, and the texts written to it so far, oldest first.
   */
  datatype SessionState = SessionState(loaded: bool, markdown: string, pending: Option<string>, storage: Option<string>, saves: seq<string>)

  datatype SessionEvent =
    | Load
    | Change(value: string)
    | SaveFires
    | Teardown
    | Clear(confirmed: bool)

  /** The session before the load effect: an empty buffer, nothing pending. */
  function Initial(storage: Option<string>): SessionState {
    SessionState(false, "", None, storage, [])
  }

  /** `loadContent() || defaultContent`: a missing or empty stored text gives the sample. */
  function LoadedText(stored: Option<string>, sample: string): string {
    if stored.Some? && stored.value != "" then stored.value else sample
  }

  /**
   * A render with the new buffer and loaded flag. When neither changed the
   * effect does not run; otherwise the old pending save is cancelled and, once
   * loaded, a save of the buffer is scheduled.
   */
  function Commit(s: SessionState, markdown: string, loaded: bool): SessionState {
    if markdown == s.markdown && loaded == s.loaded then s
    else s.(markdown := markdown, loaded := loaded, pending := if loaded then Some(markdown) else None)
  }

  function Step(s: SessionState, e: SessionEvent, sample: string): SessionState {
    match e
    case Load => Commit(s, LoadedText(s.storage, sample), true)
    case Change(v) => Commit(s, v, s.loaded)
    case SaveFires =>
      if s.pending.Some? then s.(pending := None, storage := s.pending, saves := s.saves + [s.pending.value])
      else s
    case Teardown => s.(pending := None)
    case Clear(confirmed) =>
      if confirmed then Commit(s.(storage := None), "", s.loaded) else s
  }

  function Run(s: SessionState, events: seq<SessionEvent>, sample: string): SessionState
    decreases |events|
  {
    if events == [] then s else Run(Step(s, events[0], sample), events[1..], sample)
  }

  /** A save is pending only once loaded, and it always carries the current buffer. */
  predicate Inv(s: SessionState) {
    s.pending.Some? ==> s.loaded && s.pending.value == s.markdown
  }

  lemma StepKeepsInv(s: SessionState, e: SessionEvent, sample: string)
    requires Inv(s)
    ensures Inv(Step(s, e, sample))
  {
  }

  lemma {:induction false} RunKeepsInv(s: SessionState, events: seq<SessionEvent>, sample: string)
    requires Inv(s)
    ensures Inv(Run(s, events, sample))
    decreases |events|
  {
    if events != [] {
      StepKeepsInv(s, events[0], sample);
      RunKeepsInv(Step(s, events[0], sample), events[1..], sample);
    }
  }

  /** Before the load nothing is ever scheduled, so the save timer writes nothing. */
  lemma NoSaveBeforeLoad(s: SessionState, events: seq<SessionEvent>, sample: string)
    requires Inv(s) && !s.loaded
    requires forall i :: 0 <= i < |events| ==> !events[i].Load?
    ensures var t := Run(s, events, sample);
      !t.loaded && t.pending.None? && t.saves == s.saves && (t.storage == s.storage || t.storage.None?)
    decreases |events|
  {
    if events != [] {
      var s1 := Step(s, events[0], sample);
      assert forall i :: 0 <= i < |events[1..]| ==> events[1..][i] == events[i + 1];
      NoSaveBeforeLoad(s1, events[1..], sample);
    }
  }

  /**
   * The load picks the stored text unless it is missing or empty, and it schedules
   * a save of what it loaded.
   */
  lemma LoadFallback(stored: Option<string>, sample: string)
    ensures var t := Step(Initial(stored), Load, sample);
      && t.loaded
      && (t.markdown == sample <==> stored.None? || stored.value == "" || stored.value == sample)
      && (stored.Some? && stored.value != "" ==> t.markdown == stored.value)
      && t.pending == Some(t.markdown)
  {
  }

  /** The changes `vs`, in order. */
  function Changes(vs: seq<string>): (events: seq<SessionEvent>)
    ensures |events| == |vs|
    ensures forall i :: 0 <= i < |vs| ==> events[i] == Change(vs[i])
  {
    seq(|vs|, i requires 0 <= i < |vs| => Change(vs[i]))
  }

  /** While a save of the buffer is pending, changes keep one save pending, of the latest buffer, and write nothing. */
  lemma {:induction false} ChangesReschedule(s: SessionState, vs: seq<string>, sample: string)
    requires s.loaded && s.pending == Some(s.markdown)
    ensures var t := Run(s, Changes(vs), sample);
      && t.loaded
      && t.markdown == (if vs == [] then s.markdown else vs[|vs| - 1])
      && t.pending == Some(t.markdown)
      && t.storage == s.storage && t.saves == s.saves
    decreases |vs|
  {
    if vs != [] {
      var s1 := Step(s, Change(vs[0]), sample);
      assert s1.markdown == vs[0] && s1.pending == Some(vs[0]);
      assert Changes(vs)[1..] == Changes(vs[1..]);
      ChangesReschedule(s1, vs[1..], sample);
      if |vs| > 1 {
        assert vs[1..][|vs[1..]| - 1] == vs[|vs| - 1];
      }
    }
  }

  /**
   * Debounce: after the load, N changes (the first one an actual change, or a
   * save already pending) followed by one timer firing write exactly once, and
   * what is written is the last value.
   */
  lemma DebounceSavesLast(s: SessionState, vs: seq<string>, sample: string)
    requires Inv(s) && s.loaded && |vs| >= 1
    requires s.pending.Some? || vs[0] != s.markdown
    ensures var t := Run(s, Changes(vs) + [SaveFires], sample);
      && t.saves == s.saves + [vs[|vs| - 1]]
      && t.storage == Some(vs[|vs| - 1])
      && t.pending.None?
  {
    var s1 := Step(s, Change(vs[0]), sample);
    assert s1.markdown == vs[0] && s1.pending == Some(vs[0]);
    ChangesReschedule(s1, vs[1..], sample);
    if |vs| > 1 {
      assert vs[1..][|vs[1..]| - 1] == vs[|vs| - 1];
    }
    RunAppend(s, Changes(vs), [SaveFires], sample);
    assert Run(s, Changes(vs), sample) == Run(s1, Changes(vs[1..]), sample) by {
      assert Changes(vs)[1..] == Changes(vs[1..]);
    }
    var t := Run(s1, Changes(vs[1..]), sample);
    assert Run(t, [SaveFires], sample) == Step(t, SaveFires, sample) by {
      assert [SaveFires][1..] == [];
    }
  }

  lemma {:induction false} RunAppend(s: SessionState, a: seq<SessionEvent>, b: seq<SessionEvent>, sample: string)
    ensures Run(s, a + b, sample) == Run(Run(s, a, sample), b, sample)
    decreases |a|
  {
    if a == [] {
      assert a + b == b;
    } else {
      assert (a + b)[0] == a[0];
      assert (a + b)[1..] == a[1..] + b;
      RunAppend(Step(s, a[0], sample), a[1..], b, sample);
    }
  }

  /** A change that waits out the delay is saved on its own: one save per isolated change. */
  lemma IsolatedChangeSaved(s: SessionState, v: string, sample: string)
    requires Inv(s) && s.loaded && v != s.markdown
    ensures var t := Run(s, [Change(v), SaveFires], sample);
      t.saves == s.saves + [v] && t.storage == Some(v) && t.markdown == v
  {
    var s1 := Step(s, Change(v), sample);
    assert [Change(v), SaveFires][1..] == [SaveFires];
    assert Run(s1, [SaveFires], sample) == Step(s1, SaveFires, sample) by {
      assert [SaveFires][1..] == [];
    }
  }

  /** Teardown cancels the pending save without flushing it: a later firing writes nothing. */
  lemma TeardownDropsSave(s: SessionState, sample: string)
    ensures var t := Run(s, [Teardown, SaveFires], sample);
      t.storage == s.storage && t.saves == s.saves && t.markdown == s.markdown && t.pending.None?
  {
    var s1 := Step(s, Teardown, sample);
    assert [Teardown, SaveFires][1..] == [SaveFires];
    assert Run(s1, [SaveFires], sample) == Step(s1, SaveFires, sample) by {
      assert [SaveFires][1..] == [];
    }
  }

  /** Without the confirmation, clearing changes nothing. */
  lemma UnconfirmedClearKeeps(s: SessionState, sample: string)
    ensures Step(s, Clear(false), sample) == s
  {
  }

  /**
   * A confirmed clear empties the buffer and the slot. The save it schedules
   * writes the empty text back, and an empty text loads as the sample: the next
   * session starts from the sample whether or not the save fired.
   */
  lemma ClearThenReload(s: SessionState, sample: string)
    requires Inv(s)
    ensures var c := Step(s, Clear(true), sample);
      && c.markdown == "" && c.storage.None?
      && (s.loaded && s.markdown != "" ==> c.pending == Some(""))
      && LoadedText(c.storage, sample) == sample
      && LoadedText(Step(c, SaveFires, sample).storage, sample) == sample
  {
  }

  /** What was saved is what the next load gives back, unless it was empty. */
  lemma SaveThenLoad(s: SessionState, sample: string)
    requires Inv(s) && s.pending.Some? && s.markdown != ""
    ensures var t := Step(s, SaveFires, sample);
      Step(Initial(t.storage), Load, sample).markdown == s.markdown
  {
  }

  /** The component's state: the flag, the buffer, the pending save and the storage slot. */
  class Session {
    var loaded: bool
    var markdown: string
    var pending: Option<string>
    var storage: Option<string>
    var saves: seq<string>
    const sample: string

    function State(): SessionState
      reads this
    {
      SessionState(loaded, markdown, pending, storage, saves)
    }

    predicate Valid()
      reads this
    {
      Inv(State())
    }

    /** The first render: an empty buffer, not loaded yet, over the storage slot as found. */
    constructor(stored: Option<string>, sampleDocument: string)
      ensures State() == Initial(stored) && sample == sampleDocument
      ensures Valid()
    {
      loaded := false;
      markdown := "";
      pending := None;
      storage := stored;
      saves := [];
      sample := sampleDocument;
    }

    /** The effect re-run after a render, if its dependencies changed. */
    method Render(value: string, isLoaded: bool)
      modifies this
      ensures State() == Commit(old(State()), value, isLoaded)
    {
      if value != markdown || isLoaded != loaded {
        markdown := value;
        loaded := isLoaded;
        pending := None;
        if isLoaded {
          pending := Some(markdown);
        }
      }
    }

    /** The load effect. */
    method LoadContent()
      requires Valid()
      modifies this
      ensures Valid()
      ensures State() == Step(old(State()), Load, sample)
    {
      var saved := storage;
      var text := if saved.Some? && saved.value != "" then saved.value else sample;
      Render(text, true);
    }

    /** The textarea's `onChange`. */
    method SetMarkdown(value: string)
      requires Valid()
      modifies this
      ensures Valid()
      ensures State() == Step(old(State()), Change(value), sample)
    {
      Render(value, loaded);
    }

    /** The save timer fires. */
    method SaveTimerFires()
      requires Valid()
      modifies this
      ensures Valid() && pending.None?
      ensures State() == Step(old(State()), SaveFires, sample)
    {
      if pending.Some? {
        storage := pending;
        saves := saves + [pending.value];
        pending := None;
      }
    }

    /** The effect's cleanup at unmount. */
    method Unmount()
      requires Valid()
      modifies this
      ensures Valid() && pending.None?
      ensures State() == Step(old(State()), Teardown, sample)
    {
      pending := None;
    }

    /** `handleClear`, with the answer of `confirm`. */
    method HandleClear(confirmed: bool)
      requires Valid()
      modifies this
      ensures Valid()
      ensures State() == Step(old(State()), Clear(confirmed), sample)
    {
      if confirmed {
        storage := None;
        Render("", loaded);
      }
    }
  }
}
