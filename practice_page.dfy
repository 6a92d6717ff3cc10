/** The stateful side of StrokeOrderPracticePage: the two browser-storage
    keys that hold the timeline, the isDrawing flag, the selected character,
    and the canvas as the history sees it. Every handler is proved against
    the value-level functions of StrokeTimeline. */
module PracticePage {
  import opened StrokeTimeline

  datatype Option<T> = None | Some(value: T)

  class Page {
    /** The storage key "strokeHistory"; None while the key is absent. */
    var storedHistory: Option<seq<string>>
    /** The storage key "historyIndex"; None while the key is absent. */
    var storedIndex: Option<int>
    var isDrawing: bool
    var selectedCharacter: string
    /** The canvas pixels, as far as the history can tell them apart. */
    ghost var canvas: Picture
    /** canvasRef.current is set. */
    const mounted: bool
    /** getContext("2d") gives a context. */
    const hasContext: bool

    /** The page as first rendered: the storage keys hold whatever an earlier
        visit left there, nothing is selected, the canvas is empty. */
    constructor (leftHistory: Option<seq<string>>, leftIndex: Option<int>, mounted: bool, hasContext: bool)
      ensures storedHistory == leftHistory && storedIndex == leftIndex
      ensures !isDrawing && selectedCharacter == "" && canvas == Blank
      ensures this.mounted == mounted && this.hasContext == hasContext
    {
      storedHistory, storedIndex := leftHistory, leftIndex;
      isDrawing, selectedCharacter := false, "";
      canvas := Blank;
      this.mounted, this.hasContext := mounted, hasContext;
    }

    /** getHistory: an absent key reads as the empty list. */
    function GetHistory(): (h: seq<string>)
      reads this
      ensures storedHistory.None? ==> h == []
      ensures storedHistory.Some? ==> h == storedHistory.value
    {
      match storedHistory
      case None => []
      case Some(h) => h
    }

    /** getHistoryIndex: an absent key reads as -1. */
    function GetHistoryIndex(): (i: int)
      reads this
      ensures storedIndex.None? ==> i == -1
      ensures storedIndex.Some? ==> i == storedIndex.value
    {
      match storedIndex
      case None => -1
      case Some(i) => i
    }

    /** The timeline the two keys read as. */
    function Stored(): (t: Timeline)
      reads this
    {
      Timeline(GetHistory(), GetHistoryIndex())
    }

    /** The canvas shows the snapshot under the cursor (or the seeded glyph
        before the first stroke), and the stored timeline is reachable. */
    ghost predicate InSync()
      reads this
    {
      Valid(Stored()) && canvas == Displayed(Stored(), selectedCharacter)
    }

    method SetHistoryLocal(history: seq<string>)
      modifies this`storedHistory
      ensures storedHistory == Some(history)
    {
      storedHistory := Some(history);
    }

    method SetHistoryIndexLocal(index: int)
      modifies this`storedIndex
      ensures storedIndex == Some(index)
    {
      storedIndex := Some(index);
    }

    /** A click on a character button. The selection effect runs only when the
        value changed; it seeds the canvas with the glyph when a context is
        available and overwrites both keys, whatever they held. It leaves
        isDrawing alone. */
    method SelectCharacter(c: string)
      modifies this`selectedCharacter, this`storedHistory, this`storedIndex, this`canvas
      ensures selectedCharacter == c
      ensures c != old(selectedCharacter) && mounted && c != "" ==>
        storedHistory == Some([]) && storedIndex == Some(-1) && Stored() == Cleared() &&
        canvas == (if hasContext then Glyph(c) else old(canvas))
      ensures !(c != old(selectedCharacter) && mounted && c != "") ==>
        storedHistory == old(storedHistory) && storedIndex == old(storedIndex) && canvas == old(canvas)
      ensures c != old(selectedCharacter) && mounted && hasContext && c != "" ==> InSync()
    {
      var changed := c != selectedCharacter;
      selectedCharacter := c;
      if !changed || !mounted || c == "" {
        return;
      }
      if hasContext {
        canvas := Glyph(c);
      }
      SetHistoryLocal([]);
      SetHistoryIndexLocal(-1);
      assert Stored() == Cleared();
      CommitAndResetDisplay(Cleared(), c, "");
    }

    /** startDrawing: raises the flag once the canvas and its context are
        there; a second press while drawing simply raises it again. */
    method StartDrawing()
      modifies this`isDrawing
      ensures isDrawing == (if mounted && hasContext then true else old(isDrawing))
    {
      if !mounted || !hasContext {
        return;
      }
      isDrawing := true;
    }

    /** draw: a segment is stroked only while the flag is up. */
    method Draw() returns (stroked: bool)
      modifies this`canvas
      ensures stroked <==> isDrawing && mounted && hasContext
      ensures canvas == (if stroked then Sketch else old(canvas))
    {
      if !isDrawing || !mounted || !hasContext {
        return false;
      }
      canvas := Sketch;
      return true;
    }

    /** endDrawing (mouse up, mouse leave, touch end): with no check of the
        flag, lowers it and commits `imageData`, the canvas as toDataURL
        encodes it, which the canvas then shows. */
    method EndDrawing(imageData: string)
      modifies this`isDrawing, this`storedHistory, this`storedIndex, this`canvas
      ensures !mounted ==> isDrawing == old(isDrawing) && storedHistory == old(storedHistory) &&
                           storedIndex == old(storedIndex) && canvas == old(canvas)
      ensures mounted ==> !isDrawing && storedHistory.Some? && storedIndex.Some? &&
                          Stored() == Commit(old(Stored()), imageData) && canvas == Image(imageData)
      ensures mounted ==> InSync()
    {
      if !mounted {
        return;
      }
      isDrawing := false;
      var historyArray := GetHistory();
      var historyIndex := GetHistoryIndex();
      ghost var before := Timeline(historyArray, historyIndex);
      historyArray := SliceTo(historyArray, historyIndex + 1);
      historyArray := historyArray + [imageData];
      historyIndex := |historyArray| - 1;
      SetHistoryLocal(historyArray);
      SetHistoryIndexLocal(historyIndex);
      canvas := Image(imageData);
      CommitAndResetDisplay(before, selectedCharacter, imageData);
    }

    /** loadCanvasState: a snapshot is drawn when there is a canvas and a
        context; `undefined` never loads. */
    method LoadCanvasState(load: Load)
      modifies this`canvas
      ensures canvas == (if mounted && hasContext then AfterLoad(old(canvas), load) else old(canvas))
    {
      if !mounted || !hasContext {
        return;
      }
      canvas := AfterLoad(canvas, load);
    }

    /** undo: writes only the cursor key, and only below the guard. */
    method Undo() returns (load: Load)
      modifies this`storedIndex, this`canvas
      ensures Step(Stored(), load) == UndoStep(old(Stored()))
      ensures storedHistory == old(storedHistory)
      ensures load == NoLoad ==> storedIndex == old(storedIndex) && canvas == old(canvas)
      ensures load != NoLoad ==> storedIndex.Some?
      ensures canvas == (if mounted && hasContext then AfterLoad(old(canvas), load) else old(canvas))
      ensures old(InSync()) && mounted && hasContext ==> InSync()
    {
      ghost var before := Stored();
      var historyIndex := GetHistoryIndex();
      if historyIndex <= 0 {
        return NoLoad;
      }
      var newIndex := historyIndex - 1;
      SetHistoryIndexLocal(newIndex);
      var historyArray := GetHistory();
      load := At(historyArray, newIndex);
      LoadCanvasState(load);
      if Valid(before) {
        StepsKeepDisplay(before, selectedCharacter);
      }
    }

    /** redo: writes only the cursor key, and only below the guard. */
    method Redo() returns (load: Load)
      modifies this`storedIndex, this`canvas
      ensures Step(Stored(), load) == RedoStep(old(Stored()))
      ensures storedHistory == old(storedHistory)
      ensures load == NoLoad ==> storedIndex == old(storedIndex) && canvas == old(canvas)
      ensures load != NoLoad ==> storedIndex.Some?
      ensures canvas == (if mounted && hasContext then AfterLoad(old(canvas), load) else old(canvas))
      ensures old(InSync()) && mounted && hasContext ==> InSync()
    {
      ghost var before := Stored();
      var historyArray := GetHistory();
      var historyIndex := GetHistoryIndex();
      if historyIndex >= |historyArray| - 1 {
        return NoLoad;
      }
      var newIndex := historyIndex + 1;
      SetHistoryIndexLocal(newIndex);
      load := At(historyArray, newIndex);
      LoadCanvasState(load);
      if Valid(before) {
        StepsKeepDisplay(before, selectedCharacter);
      }
    }
  }

  /** From the first render, two strokes on a newly selected character,
      then undo, undo, redo: the handlers agree with the value-level
      scenario, and the canvas follows the cursor throughout. */
  method PracticeSession(left: Option<seq<string>>, leftIndex: Option<int>) returns (p: Page)
    ensures p.Stored() == Timeline(["A", "B"], 1) && p.canvas == Image("B") && p.InSync()
  {
    p := new Page(left, leftIndex, true, true);
    p.SelectCharacter("あ");
    TwoStrokes(p);
    UndoTwiceRedo(p);
  }

  /** Two strokes drawn and ended right after a reset. */
  method TwoStrokes(p: Page)
    requires p.mounted && p.hasContext && p.Stored() == Cleared()
    modifies p`isDrawing, p`storedHistory, p`storedIndex, p`canvas
    ensures p.Stored() == Timeline(["A", "B"], 1) && p.InSync()
  {
    OneStroke(p, [], "A");
    assert [] + ["A"] == ["A"];
    OneStroke(p, ["A"], "B");
    assert ["A"] + ["B"] == ["A", "B"];
  }

  /** Press, move, release with the cursor on the last snapshot: the new
      snapshot is appended and shown. */
  method OneStroke(p: Page, h: seq<string>, image: string)
    requires p.mounted && p.hasContext && p.Stored() == Timeline(h, |h| - 1)
    modifies p`isDrawing, p`storedHistory, p`storedIndex, p`canvas
    ensures p.Stored() == Timeline(h + [image], |h|) && p.InSync() && !p.isDrawing
  {
    p.StartDrawing();
    var stroked := p.Draw();
    assert stroked;
    p.EndDrawing(image);
    CommitOnTop(h, image);
  }

  /** The undo, undo, redo part of the session above. */
  method UndoTwiceRedo(p: Page)
    requires p.mounted && p.hasContext
    requires p.Stored() == Timeline(["A", "B"], 1) && p.InSync()
    modifies p`storedIndex, p`canvas
    ensures p.Stored() == Timeline(["A", "B"], 1) && p.canvas == Image("B") && p.InSync()
  {
    var l1 := p.Undo();
    assert l1 == LoadImage("A") && p.Stored() == Timeline(["A", "B"], 0) && p.canvas == Image("A");
    var l2 := p.Undo();
    assert l2 == NoLoad && p.Stored() == Timeline(["A", "B"], 0) && p.canvas == Image("A");
    var l3 := p.Redo();
    assert l3 == LoadImage("B");
  }
}
