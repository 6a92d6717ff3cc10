/** The undo/redo timeline of the stroke-order practice page, as values.
    A `Timeline` is what the two storage keys hold together: the list of
    canvas snapshots (data URLs, kept opaque) under "strokeHistory" and the
    cursor under "historyIndex". The page class in practice_page.dfy is
    proved against the functions here. */
module StrokeTimeline {

  datatype Timeline = Timeline(history: seq<string>, index: int)

  /** What undo or redo hands to loadCanvasState: nothing (the guard returned
      early), a stored snapshot, or JavaScript's `undefined` (an array read
      outside the list). */
  datatype Load = NoLoad | LoadImage(image: string) | LoadUndefined

  /** The timeline after undo or redo, and what was handed to the canvas. */
  datatype Step = Step(next: Timeline, load: Load)

  /** What the canvas shows, seen from the history's side: the empty canvas
      before any selection, the seeded glyph, a stored snapshot, or strokes
      drawn since the last commit. */
  datatype Picture = Blank | Glyph(character: string) | Image(data: string) | Sketch

  /** Every timeline reachable from a reset: the cursor is -1 or points into
      the list, and it is -1 exactly when the list is empty. */
  predicate Valid(t: Timeline)
  {
    -1 <= t.index < |t.history| && (t.index == -1 <==> t.history == [])
  }

  /** What the selection effect writes: no snapshots and cursor -1. */
  function Cleared(): (t: Timeline)
    ensures Valid(t) && t.history == []
  {
    Timeline([], -1)
  }

  /** JavaScript's `s.slice(0, end)` for an integer `end`: a negative end
      counts back from the last element, an end past the list is clamped. */
  function SliceTo(s: seq<string>, end: int): (r: seq<string>)
    ensures r <= s
    ensures 0 <= end <= |s| ==> |r| == end
    ensures |s| <= end ==> r == s
    ensures end < 0 ==> |r| == if |s| + end < 0 then 0 else |s| + end
  {
    if end < 0 then s[..if |s| + end < 0 then 0 else |s| + end]
    else if end <= |s| then s[..end]
    else s
  }

  /** JavaScript's `s[i]`: `undefined` outside the list. */
  function At(s: seq<string>, i: int): (l: Load)
    ensures l != NoLoad
    ensures l.LoadImage? <==> 0 <= i < |s|
    ensures l.LoadImage? ==> l.image == s[i]
  {
    if 0 <= i < |s| then LoadImage(s[i]) else LoadUndefined
  }

  /** endDrawing: cut the list after the cursor, append the new snapshot and
      point the cursor at it. */
  function Commit(t: Timeline, image: string): (r: Timeline)
    ensures r.history != [] && r.index == |r.history| - 1 && r.history[r.index] == image
    ensures r.history[..r.index] <= t.history
    ensures Valid(r)
  {
    var kept := SliceTo(t.history, t.index + 1);
    Timeline(kept + [image], |kept|)
  }

  /** undo: a no-op at cursor 0 or below, otherwise one step back. */
  function UndoStep(t: Timeline): (r: Step)
    ensures r.next.history == t.history
    ensures t.index <= 0 ==> r == Step(t, NoLoad)
    ensures 0 < t.index ==> r.next.index == t.index - 1 && r.load == At(t.history, t.index - 1)
    ensures 0 <= t.index ==> 0 <= r.next.index
    ensures Valid(t) ==> Valid(r.next) && !r.load.LoadUndefined?
  {
    if t.index <= 0 then Step(t, NoLoad)
    else
      var newIndex := t.index - 1;
      Step(Timeline(t.history, newIndex), At(t.history, newIndex))
  }

  /** redo: a no-op at the last snapshot or beyond, otherwise one step forward. */
  function RedoStep(t: Timeline): (r: Step)
    ensures r.next.history == t.history
    ensures |t.history| - 1 <= t.index ==> r == Step(t, NoLoad)
    ensures t.index < |t.history| - 1 ==> r.next.index == t.index + 1 && r.load == At(t.history, t.index + 1)
    ensures Valid(t) ==> Valid(r.next) && !r.load.LoadUndefined?
  {
    if t.index >= |t.history| - 1 then Step(t, NoLoad)
    else
      var newIndex := t.index + 1;
      Step(Timeline(t.history, newIndex), At(t.history, newIndex))
  }

  /** What the canvas should show for a timeline: the snapshot under the
      cursor, or only the seeded glyph before the first stroke. */
  function Displayed(t: Timeline, glyph: string): (p: Picture)
    requires Valid(t)
  {
    if t.index >= 0 then Image(t.history[t.index]) else Glyph(glyph)
  }

  /** The canvas after loadCanvasState: a snapshot replaces the picture; with
      nothing to load, or `undefined` (an image that never loads), it stays. */
  function AfterLoad(p: Picture, l: Load): (q: Picture)
    ensures l.LoadImage? ==> q == Image(l.image)
    ensures !l.LoadImage? ==> q == p
  {
    if l.LoadImage? then Image(l.image) else p
  }

  // ---------------------------------------------------------------------
  // Commit: the redo tail is dropped, the kept prefix is untouched.

  /** From a reachable timeline, commit keeps exactly the snapshots up to the
      cursor and discards every later ("redo") entry. */
  lemma CommitDropsRedoTail(t: Timeline, image: string)
    requires Valid(t)
    ensures Commit(t, image) == Timeline(t.history[..t.index + 1] + [image], t.index + 1)
    ensures forall k :: 0 <= k <= t.index ==> Commit(t, image).history[k] == t.history[k]
  {
  }

  /** With the cursor on the last snapshot there is no redo tail: commit
      appends. */
  lemma CommitOnTop(h: seq<string>, image: string)
    ensures Commit(Timeline(h, |h| - 1), image) == Timeline(h + [image], |h|)
  {
  }

  /** The worked example: [s0,s1,s2] at cursor 1, then commit s3. */
  lemma CommitExample()
    ensures Commit(Timeline(["s0", "s1", "s2"], 1), "s3") == Timeline(["s0", "s1", "s3"], 2)
  {
  }

  /** A commit after an undo replaces the snapshot that the undo stepped away
      from, and everything after it. */
  lemma UndoThenCommit(t: Timeline, image: string)
    requires Valid(t) && 0 < t.index
    ensures Commit(UndoStep(t).next, image) == Timeline(t.history[..t.index] + [image], t.index)
  {
  }

  /** endDrawing fires on mouse-up and again on mouse-leave: the first undo
      after such a double commit stays on the same picture. */
  lemma DoubleCommitUndo(t: Timeline, image: string)
    ensures var d := Commit(Commit(t, image), image);
            UndoStep(d).load == LoadImage(image) && UndoStep(d).next.index == d.index - 1
  {
  }

  // ---------------------------------------------------------------------
  // Undo and redo.

  /** Undo followed by redo comes back to the same cursor and shows the same
      snapshot again, from any cursor of at least 1. */
  lemma UndoRedoRoundTrip(t: Timeline)
    requires Valid(t) && 1 <= t.index
    ensures RedoStep(UndoStep(t).next) == Step(t, LoadImage(t.history[t.index]))
  {
  }

  /** At cursor 0 the round trip does not hold: undo does nothing, so a
      following redo moves to the second snapshot when there is one. */
  lemma UndoRedoAtFirstStroke(t: Timeline)
    requires Valid(t) && t.index == 0 && 2 <= |t.history|
    ensures UndoStep(t) == Step(t, NoLoad)
    ensures RedoStep(UndoStep(t).next) == Step(Timeline(t.history, 1), LoadImage(t.history[1]))
  {
  }

  /** Whatever undo or redo do, the canvas ends up showing the snapshot
      under the new cursor, provided it showed the one under the old cursor. */
  lemma StepsKeepDisplay(t: Timeline, glyph: string)
    requires Valid(t)
    ensures AfterLoad(Displayed(t, glyph), UndoStep(t).load) == Displayed(UndoStep(t).next, glyph)
    ensures AfterLoad(Displayed(t, glyph), RedoStep(t).load) == Displayed(RedoStep(t).next, glyph)
  {
  }

  /** From any timeline, reachable or not, a commit leaves the cursor on the
      snapshot just taken, and a reset leaves it on the seeded glyph. */
  lemma CommitAndResetDisplay(t: Timeline, glyph: string, image: string)
    ensures Displayed(Commit(t, image), glyph) == Image(image)
    ensures Displayed(Cleared(), glyph) == Glyph(glyph)
  {
  }

  // ---------------------------------------------------------------------
  // Sessions: any sequence of user actions after a reset.

  /** A user action that touches the timeline: selecting a different
      character (with the canvas mounted), ending a stroke, or a click on the
      undo or redo button. */
  datatype Action = SelectNew | EndStroke(image: string) | UndoClick | RedoClick

  function Perform(t: Timeline, a: Action): (r: Timeline)
    ensures Valid(t) ==> Valid(r)
    ensures a.SelectNew? ==> r == Cleared()
  {
    match a
    case SelectNew => Cleared()
    case EndStroke(image) => Commit(t, image)
    case UndoClick => UndoStep(t).next
    case RedoClick => RedoStep(t).next
  }

  function Run(t: Timeline, actions: seq<Action>): (r: Timeline)
    decreases |actions|
  {
    if actions == [] then t else Run(Perform(t, actions[0]), actions[1..])
  }

  lemma {:induction false} RunKeepsValid(t: Timeline, actions: seq<Action>)
    requires Valid(t)
    ensures Valid(Run(t, actions))
    decreases |actions|
  {
    if actions != [] {
      RunKeepsValid(Perform(t, actions[0]), actions[1..]);
    }
  }

  /** Starting from a reset, every sequence of selections, commits, undos and
      redos keeps -1 <= index <= |history| - 1, with index -1 only on an empty
      list. */
  lemma {:induction false} SessionKeepsValid(actions: seq<Action>)
    ensures Valid(Run(Cleared(), actions))
  {
    RunKeepsValid(Cleared(), actions);
  }

  /** One EndStroke per snapshot, in order. */
  function Strokes(images: seq<string>): (r: seq<Action>)
    ensures |r| == |images|
    ensures forall k :: 0 <= k < |images| ==> r[k] == EndStroke(images[k])
  {
    if images == [] then [] else [EndStroke(images[0])] + Strokes(images[1..])
  }

  /** Running a non-empty list performs its first action, then the rest. */
  lemma RunCons(t: Timeline, a: Action, rest: seq<Action>)
    ensures Run(t, [a] + rest) == Run(Perform(t, a), rest)
  {
  }

  lemma {:induction false} StrokesAppend(h: seq<string>, images: seq<string>)
    ensures Run(Timeline(h, |h| - 1), Strokes(images)) == Timeline(h + images, |h| + |images| - 1)
    decreases |images|
  {
    if images == [] {
      assert h + images == h;
    } else {
      var rest := images[1..];
      var h1 := h + [images[0]];
      RunCons(Timeline(h, |h| - 1), EndStroke(images[0]), Strokes(rest));
      CommitOnTop(h, images[0]);
      StrokesAppend(h1, rest);
      AppendSplit(h, images);
    }
  }

  lemma AppendSplit(h: seq<string>, images: seq<string>)
    requires images != []
    ensures h + [images[0]] + images[1..] == h + images
  {
  }

  /** Commits with no undo in between: the list is exactly the committed
      snapshots and the cursor stays on the last one. */
  lemma {:induction false} CommitsOnly(images: seq<string>)
    ensures Run(Cleared(), Strokes(images)) == Timeline(images, |images| - 1)
  {
    StrokesAppend([], images);
    assert [] + images == images;
  }

  /** Select, draw A, draw B, undo (shows A), undo (cursor 0: nothing
      happens, A stays), redo (shows B again). */
  lemma PracticeScenario()
    ensures var t2 := Commit(Commit(Cleared(), "A"), "B");
            var u1 := UndoStep(t2);
            var u2 := UndoStep(u1.next);
            var r := RedoStep(u2.next);
            u1 == Step(Timeline(["A", "B"], 0), LoadImage("A")) &&
            u2 == Step(Timeline(["A", "B"], 0), NoLoad) &&
            r == Step(Timeline(["A", "B"], 1), LoadImage("B"))
  {
    CommitOnTop([], "A");
    assert [] + ["A"] == ["A"];
    CommitOnTop(["A"], "B");
    assert ["A"] + ["B"] == ["A", "B"];
    var t2 := Timeline(["A", "B"], 1);
    assert UndoStep(t2) == Step(Timeline(["A", "B"], 0), LoadImage("A"));
  }
}
