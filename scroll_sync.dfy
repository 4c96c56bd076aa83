/**
 * The scroll synchronisation of the two panes. Each pane has an "is scrolling"
 * flag; the two handlers share one reset-timer slot. A scroll of one pane is
 * ignored while the other pane's flag is set; otherwise it sets its own flag,
 * replaces the pending reset timer by one that clears that flag, and moves the
 * other pane to the same fraction of its scrollable extent. Time is the
 * `ResetFires` event: the pending timer firing.
 */
module ScrollSync {
  import opened JsString

  datatype Pane = EditorPane | PreviewPane

  function Other(p: Pane): Pane {
    if p.EditorPane? then PreviewPane else EditorPane
  }

  /** `scrollHeight` and `clientHeight` of a pane, when its element is mounted. */
  datatype Extent = Extent(scrollHeight: real, clientHeight: real)

  /**
   * The two flags of `isScrollingRef`, whose reset timer `scrollSyncTimeoutRef`
   * holds (if any is pending), and the `scrollTop` of each pane.
   */
  datatype SyncState = SyncState(editorScrolling: bool, previewScrolling: bool, timer: Option<Pane>, editorTop: real, previewTop: real)

  datatype SyncEvent =
    | Scroll(pane: Pane, fraction: real, otherExtent: Option<Extent>)
    | ResetFires

  function Scrolling(s: SyncState, p: Pane): bool {
    if p.EditorPane? then s.editorScrolling else s.previewScrolling
  }

  function Top(s: SyncState, p: Pane): real {
    if p.EditorPane? then s.editorTop else s.previewTop
  }

  /** The offset a pane is moved to: `scrollPercentage * (scrollHeight - clientHeight)`. */
  function Target(fraction: real, e: Extent): real {
    fraction * (e.scrollHeight - e.clientHeight)
  }

  /** `handleEditorScroll` and `handlePreviewScroll`, and the reset timer firing. */
  function Step(s: SyncState, e: SyncEvent): SyncState {
    match e
    case Scroll(p, f, ext) =>
      if Scrolling(s, Other(p)) then s
      else if p.EditorPane? then
        s.(editorScrolling := true, timer := Some(EditorPane),
           previewTop := if ext.Some? then Target(f, ext.value) else s.previewTop)
      else
        s.(previewScrolling := true, timer := Some(PreviewPane),
           editorTop := if ext.Some? then Target(f, ext.value) else s.editorTop)
    case ResetFires =>
      match s.timer
      case None => s
      case Some(EditorPane) => s.(editorScrolling := false, timer := None)
      case Some(PreviewPane) => s.(previewScrolling := false, timer := None)
  }

  function Run(s: SyncState, events: seq<SyncEvent>): SyncState
    decreases |events|
  {
    if events == [] then s else Run(Step(s, events[0]), events[1..])
  }

  /**
   * The protocol invariant: the flags are never both set, and a flag is set
   * exactly when the one timer slot holds that pane's reset timer.
   */
  predicate Inv(s: SyncState) {
    && !(s.editorScrolling && s.previewScrolling)
    && (s.editorScrolling <==> s.timer == Some(EditorPane))
    && (s.previewScrolling <==> s.timer == Some(PreviewPane))
  }

  /** Neither pane is scrolling and no timer is pending. */
  predicate Idle(s: SyncState) {
    !s.editorScrolling && !s.previewScrolling && s.timer.None?
  }

  lemma StepKeepsInv(s: SyncState, e: SyncEvent)
    requires Inv(s)
    ensures Inv(Step(s, e))
  {
  }

  lemma {:induction false} RunKeepsInv(s: SyncState, events: seq<SyncEvent>)
    requires Inv(s)
    ensures Inv(Run(s, events))
    decreases |events|
  {
    if events != [] {
      StepKeepsInv(s, events[0]);
      RunKeepsInv(Step(s, events[0]), events[1..]);
    }
  }

  /** A scroll of one pane while the other pane's flag is set is an echo: nothing changes. */
  lemma EchoIgnored(s: SyncState, p: Pane, f: real, ext: Option<Extent>)
    requires Scrolling(s, Other(p))
    ensures Step(s, Scroll(p, f, ext)) == s
  {
  }

  /**
   * A scroll accepted from pane `p` marks `p` as scrolling with its reset timer
   * the only one pending, moves the other pane to the fraction of its extent,
   * and leaves `p`'s own offset alone.
   */
  lemma ScrollSyncsOther(s: SyncState, p: Pane, f: real, ext: Option<Extent>)
    requires Inv(s) && !Scrolling(s, Other(p))
    ensures var t := Step(s, Scroll(p, f, ext));
      && Scrolling(t, p) && !Scrolling(t, Other(p))
      && t.timer == Some(p)
      && Top(t, p) == Top(s, p)
      && Top(t, Other(p)) == (if ext.Some? then Target(f, ext.value) else Top(s, Other(p)))
  {
  }

  /** For a fraction in [0, 1] and a pane whose content overflows, the target offset lies in [0, scrollHeight - clientHeight]. */
  lemma TargetInRange(f: real, e: Extent)
    requires 0.0 <= f <= 1.0 && e.clientHeight <= e.scrollHeight
    ensures 0.0 <= Target(f, e) <= e.scrollHeight - e.clientHeight
  {
    var d := e.scrollHeight - e.clientHeight;
    assert 0.0 <= f * d;
    assert (1.0 - f) * d >= 0.0;
    assert f * d + (1.0 - f) * d == d;
  }

  predicate NoReset(events: seq<SyncEvent>) {
    forall i :: 0 <= i < |events| ==> events[i].Scroll?
  }

  /**
   * No feedback loop: while pane `p` is scrolling and its reset timer has not
   * fired, no scroll event moves `p` — the other pane's echoes are all ignored
   * and `p` stays the only scrolling pane.
   */
  lemma {:induction false} NoFeedback(s: SyncState, p: Pane, events: seq<SyncEvent>)
    requires Inv(s) && Scrolling(s, p) && NoReset(events)
    ensures var t := Run(s, events);
      Inv(t) && Scrolling(t, p) && !Scrolling(t, Other(p)) && Top(t, p) == Top(s, p)
    decreases |events|
  {
    if events != [] {
      var e := events[0];
      assert e.Scroll?;
      StepKeepsInv(s, e);
      var s1 := Step(s, e);
      assert Scrolling(s1, p) && Top(s1, p) == Top(s, p);
      assert NoReset(events[1..]) by {
        assert forall i :: 0 <= i < |events[1..]| ==> events[1..][i] == events[i + 1];
      }
      NoFeedback(s1, p, events[1..]);
    }
    RunKeepsInv(s, events);
  }

  /** With a single timer slot, its firing makes both panes idle. */
  lemma ResetReenables(s: SyncState)
    requires Inv(s)
    ensures Idle(Step(s, ResetFires))
    ensures Step(s, ResetFires).editorTop == s.editorTop && Step(s, ResetFires).previewTop == s.previewTop
  {
  }

  /**
   * The round of one sync: from idle, a scroll of `p` moves the other pane, that
   * pane's echo is ignored, and the reset timer brings both panes back to idle.
   */
  lemma SyncRound(s: SyncState, p: Pane, f: real, ext: Extent, g: real, back: Option<Extent>)
    requires Idle(s)
    ensures var t := Run(s, [Scroll(p, f, Some(ext)), Scroll(Other(p), g, back), ResetFires]);
      && Idle(t)
      && Top(t, Other(p)) == Target(f, ext)
      && Top(t, p) == Top(s, p)
  {
    var s1 := Step(s, Scroll(p, f, Some(ext)));
    assert Scrolling(s1, p);
    var s2 := Step(s1, Scroll(Other(p), g, back));
    assert Other(Other(p)) == p;
    assert s2 == s1;
    var events := [Scroll(p, f, Some(ext)), Scroll(Other(p), g, back), ResetFires];
    assert events[1..] == [Scroll(Other(p), g, back), ResetFires];
    assert events[1..][1..] == [ResetFires];
    assert Run(s, events) == Run(s2, [ResetFires]);
    assert Run(s2, [ResetFires]) == Step(s2, ResetFires) by {
      assert [ResetFires][1..] == [];
    }
  }

  /** The protocol's state as the component holds it: the flags, the timer slot and the two offsets. */
  class ScrollSyncController {
    var editorScrolling: bool
    var previewScrolling: bool
    var timer: Option<Pane>
    var editorTop: real
    var previewTop: real

    function State(): SyncState
      reads this
    {
      SyncState(editorScrolling, previewScrolling, timer, editorTop, previewTop)
    }

    predicate Valid()
      reads this
    {
      Inv(State())
    }

    /** Both flags clear, no timer pending. */
    constructor(editorTop0: real, previewTop0: real)
      ensures State() == SyncState(false, false, None, editorTop0, previewTop0)
      ensures Valid() && Idle(State())
    {
      editorScrolling := false;
      previewScrolling := false;
      timer := None;
      editorTop := editorTop0;
      previewTop := previewTop0;
    }

    /** `handleEditorScroll(scrollPercentage)`; `preview` is the preview element if it is mounted. */
    method HandleEditorScroll(fraction: real, preview: Option<Extent>)
      requires Valid()
      modifies this
      ensures Valid()
      ensures State() == Step(old(State()), Scroll(EditorPane, fraction, preview))
    {
      if previewScrolling {
        return;
      }
      editorScrolling := true;
      timer := None;
      if preview.Some? {
        previewTop := Target(fraction, preview.value);
      }
      timer := Some(EditorPane);
    }

    /** `handlePreviewScroll(scrollPercentage)`; `editor` is the textarea if it is mounted. */
    method HandlePreviewScroll(fraction: real, editor: Option<Extent>)
      requires Valid()
      modifies this
      ensures Valid()
      ensures State() == Step(old(State()), Scroll(PreviewPane, fraction, editor))
    {
      if editorScrolling {
        return;
      }
      previewScrolling := true;
      timer := None;
      if editor.Some? {
        editorTop := Target(fraction, editor.value);
      }
      timer := Some(PreviewPane);
    }

    /** The pending reset timer fires and clears the flag of the pane that set it. */
    method ResetTimerFires()
      requires Valid()
      modifies this
      ensures Valid() && Idle(State())
      ensures State() == Step(old(State()), ResetFires)
    {
      match timer
      case None =>
      case Some(p) =>
        if p.EditorPane? {
          editorScrolling := false;
        } else {
          previewScrolling := false;
        }
        timer := None;
    }
  }
}
