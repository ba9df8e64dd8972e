// The editor script embedded in Services/EditorService.cs: a textarea with a
// bounded undo/redo history kept by `saveState`, `undo` and `redo`, and the
// edit entry points the WPF window calls (`setText`, `insertText`,
// `wrapSelection`, `insertAtLineStart`) plus the Tab and Enter key handlers.
// `notifyChange`, `focus` and console logging are not modelled.

module WpfEditor {
  import opened Optional
  import opened TextArea

  /** `undoStack.length > 100` triggers `shift()`. */
  const UndoLimit: nat := 100

  /** The script's history variables: `undoStack`, `redoStack`, `lastValue`. */
  datatype History = History(undo: seq<string>, redo: seq<string>, last: string)

  /** The capacity bound that every entry point keeps. */
  predicate Bounded(h: History)
  {
    |h.undo| + |h.redo| <= UndoLimit
  }

  /** `saveState()` with `busy` for `isUndoRedo` and `value` for
      `editor.value`. */
  function Save(h: History, value: string, busy: bool): (r: History)
    ensures busy || value == h.last ==> r == h
    ensures !busy && value != h.last ==> r.redo == [] && r.last == value
    ensures !busy && value != h.last && |h.undo| < UndoLimit ==> r.undo == h.undo + [h.last]
    ensures !busy && value != h.last && |h.undo| >= UndoLimit ==> r.undo == h.undo[1..] + [h.last]
    ensures Bounded(h) ==> Bounded(r)
  {
    if busy || value == h.last then h
    else
      var pushed := h.undo + [h.last];
      var undo := if |pushed| > UndoLimit then pushed[1..] else pushed;
      History(undo, [], value)
  }

  /** `undo()`: `None` when the undo stack is empty (the script returns
      false), otherwise the new history and the value restored. */
  function UndoStep(h: History, value: string): Option<(History, string)>
  {
    if h.undo == [] then None
    else
      var v := h.undo[|h.undo| - 1];
      Some((History(h.undo[..|h.undo| - 1], h.redo + [value], v), v))
  }

  /** `redo()`, the mirror image of `undo()`. */
  function RedoStep(h: History, value: string): Option<(History, string)>
  {
    if h.redo == [] then None
    else
      var v := h.redo[|h.redo| - 1];
      Some((History(h.undo + [value], h.redo[..|h.redo| - 1], v), v))
  }

  // ---------------------------------------------------------------------

  /** A recorded change pushes the old `lastValue`; when the stack then holds
      more than 100 entries, the oldest one is dropped. */
  lemma SaveDropsOldest(h: History, value: string)
    requires Bounded(h) && |h.undo| == UndoLimit && h.redo == [] && value != h.last
    ensures Save(h, value, false).undo == h.undo[1..] + [h.last]
    ensures |Save(h, value, false).undo| == UndoLimit
  {
  }

  /** Undo only moves entries between the stacks and the value: the multiset
      of all texts held, and the total stack size, stay the same. */
  lemma UndoMovesEntries(h: History, value: string)
    requires h.undo != []
    ensures
      var (h', v') := UndoStep(h, value).value;
      && |h'.undo| + |h'.redo| == |h.undo| + |h.redo|
      && multiset(h'.undo + h'.redo + [v']) == multiset(h.undo + h.redo + [value])
  {
    var n := |h.undo|;
    assert h.undo == h.undo[..n - 1] + [h.undo[n - 1]];
    calc {
      multiset(h.undo[..n - 1] + (h.redo + [value]) + [h.undo[n - 1]]);
      multiset(h.undo[..n - 1]) + multiset(h.redo) + multiset([value]) + multiset([h.undo[n - 1]]);
      multiset(h.undo[..n - 1] + [h.undo[n - 1]]) + multiset(h.redo) + multiset([value]);
      multiset(h.undo + h.redo + [value]);
    }
  }

  /** Redo, likewise, only moves entries. */
  lemma RedoMovesEntries(h: History, value: string)
    requires h.redo != []
    ensures
      var (h', v') := RedoStep(h, value).value;
      && |h'.undo| + |h'.redo| == |h.undo| + |h.redo|
      && multiset(h'.undo + h'.redo + [v']) == multiset(h.undo + h.redo + [value])
  {
    var n := |h.redo|;
    assert h.redo == h.redo[..n - 1] + [h.redo[n - 1]];
    calc {
      multiset(h.undo + [value] + h.redo[..n - 1] + [h.redo[n - 1]]);
      multiset(h.undo) + multiset([value]) + multiset(h.redo[..n - 1]) + multiset([h.redo[n - 1]]);
      multiset(h.undo) + multiset(h.redo[..n - 1] + [h.redo[n - 1]]) + multiset([value]);
      multiset(h.undo + h.redo + [value]);
    }
  }

  /** Undo immediately followed by redo restores the value and both stacks,
      provided `lastValue` was in step with the value (as after every entry
      point). */
  lemma UndoThenRedo(h: History, value: string)
    requires h.last == value && h.undo != []
    ensures
      var (h', v') := UndoStep(h, value).value;
      RedoStep(h', v') == Some((h, value))
  {
    var n := |h.undo|;
    assert h.undo[..n - 1] + [h.undo[n - 1]] == h.undo;
    assert (h.redo + [value])[..|h.redo|] == h.redo;
  }

  /** Redo immediately followed by undo restores them as well. */
  lemma RedoThenUndo(h: History, value: string)
    requires h.last == value && h.redo != []
    ensures
      var (h', v') := RedoStep(h, value).value;
      UndoStep(h', v') == Some((h, value))
  {
    var n := |h.redo|;
    assert h.redo[..n - 1] + [h.redo[n - 1]] == h.redo;
    assert (h.undo + [value])[..|h.undo|] == h.undo;
  }

  // ---------------------------------------------------------------------

  /** The script's state: the textarea (`value`, selection) and the history
      variables. */
  class EditorScript {
    var value: string
    var selectionStart: nat
    var selectionEnd: nat
    var undoStack: seq<string>
    var redoStack: seq<string>
    var lastValue: string
    var isUndoRedo: bool

    function Hist(): History
      reads this
    {
      History(undoStack, redoStack, lastValue)
    }

    /** Between two events: a selection inside the value, the capacity bound,
        no undo/redo in progress, and `lastValue` in step with the value. */
    ghost predicate Valid()
      reads this
    {
      && SelectionIn(value, selectionStart, selectionEnd)
      && Bounded(Hist())
      && !isUndoRedo
      && lastValue == value
    }

    /** The page loads with an empty textarea and `lastValue = editor.value`. */
    constructor ()
      ensures Valid()
      ensures value == [] && undoStack == [] && redoStack == []
    {
      value := [];
      selectionStart, selectionEnd := 0, 0;
      undoStack, redoStack := [], [];
      lastValue := [];
      isUndoRedo := false;
    }

    /** `editor.value = v` without a following selection assignment: a
        textarea whose value changes puts the caret at the end (HTML
        standard); an unchanged value keeps the selection. */
    method AssignValue(v: string)
      requires SelectionIn(value, selectionStart, selectionEnd)
      modifies this`value, this`selectionStart, this`selectionEnd
      ensures value == v && SelectionIn(value, selectionStart, selectionEnd)
      ensures v != old(value) ==> selectionStart == selectionEnd == |v|
      ensures v == old(value) ==> selectionStart == old(selectionStart) && selectionEnd == old(selectionEnd)
    {
      if v != value {
        value := v;
        selectionStart, selectionEnd := |v|, |v|;
      }
    }

    /** `saveState()`. */
    method SaveState()
      requires Bounded(Hist())
      modifies this`undoStack, this`redoStack, this`lastValue
      ensures Hist() == Save(old(Hist()), value, isUndoRedo)
    {
      if isUndoRedo {
        return;
      }
      var currentValue := value;
      if currentValue != lastValue {
        undoStack := undoStack + [lastValue];
        if |undoStack| > UndoLimit {
          undoStack := undoStack[1..];
        }
        redoStack := [];
        lastValue := currentValue;
      }
    }

    /** `undo()`. */
    method Undo() returns (done: bool)
      requires Valid()
      modifies this
      ensures Valid()
      ensures done <==> old(undoStack) != []
      ensures !done ==> (Hist() == old(Hist()) && value == old(value)
        && selectionStart == old(selectionStart) && selectionEnd == old(selectionEnd))
      ensures done ==> UndoStep(old(Hist()), old(value)) == Some((Hist(), value))
      ensures done && value != old(value) ==> selectionStart == selectionEnd == |value|
      ensures done && value == old(value) ==>
        selectionStart == old(selectionStart) && selectionEnd == old(selectionEnd)
    {
      if |undoStack| == 0 {
        return false;
      }
      isUndoRedo := true;
      redoStack := redoStack + [value];
      var top := undoStack[|undoStack| - 1];
      undoStack := undoStack[..|undoStack| - 1];
      AssignValue(top);
      lastValue := value;
      isUndoRedo := false;
      return true;
    }

    /** `redo()`. */
    method Redo() returns (done: bool)
      requires Valid()
      modifies this
      ensures Valid()
      ensures done <==> old(redoStack) != []
      ensures !done ==> (Hist() == old(Hist()) && value == old(value)
        && selectionStart == old(selectionStart) && selectionEnd == old(selectionEnd))
      ensures done ==> RedoStep(old(Hist()), old(value)) == Some((Hist(), value))
      ensures done && value != old(value) ==> selectionStart == selectionEnd == |value|
      ensures done && value == old(value) ==>
        selectionStart == old(selectionStart) && selectionEnd == old(selectionEnd)
    {
      if |redoStack| == 0 {
        return false;
      }
      isUndoRedo := true;
      undoStack := undoStack + [value];
      var top := redoStack[|redoStack| - 1];
      redoStack := redoStack[..|redoStack| - 1];
      AssignValue(top);
      lastValue := value;
      isUndoRedo := false;
      return true;
    }

    /** The user typing: the browser changes the value and selection, then
        the `input` listener calls `saveState()`. */
    method Input(newValue: string, newStart: nat, newEnd: nat)
      requires Valid() && SelectionIn(newValue, newStart, newEnd)
      modifies this
      ensures Valid()
      ensures value == newValue && selectionStart == newStart && selectionEnd == newEnd
      ensures Hist() == Save(old(Hist()), newValue, false)
    {
      value, selectionStart, selectionEnd := newValue, newStart, newEnd;
      SaveState();
    }

    /** Applies an edit computed from the current value, then `saveState()`. */
    method Commit(e: Edit)
      requires Valid() && SelectionIn(e.value, e.selStart, e.selEnd)
      modifies this
      ensures Valid()
      ensures value == e.value && selectionStart == e.selStart && selectionEnd == e.selEnd
      ensures Hist() == Save(old(Hist()), e.value, false)
    {
      value := e.value;
      selectionStart, selectionEnd := e.selStart, e.selEnd;
      SaveState();
    }

    /** The Tab key: the selection becomes a tab character. */
    method KeyTab()
      requires Valid()
      modifies this
      ensures Valid()
      ensures Edit(value, selectionStart, selectionEnd)
        == ReplaceSelection(old(value), old(selectionStart), old(selectionEnd), "\t")
      ensures Hist() == Save(old(Hist()), value, false)
    {
      Commit(ReplaceSelection(value, selectionStart, selectionEnd, "\t"));
    }

    /** The Enter key: the selection becomes a Markdown hard break. */
    method KeyEnter()
      requires Valid()
      modifies this
      ensures Valid()
      ensures Edit(value, selectionStart, selectionEnd)
        == ReplaceSelection(old(value), old(selectionStart), old(selectionEnd), "  \n")
      ensures Hist() == Save(old(Hist()), value, false)
    {
      Commit(ReplaceSelection(value, selectionStart, selectionEnd, "  \n"));
    }

    // Ctrl+Z and Ctrl+Y / Ctrl+Shift+Z only call `undo()` / `redo()`.

    /** `window.setText(text)`: the text replaces everything and the history
        starts afresh. */
    method SetText(text: string)
      requires Valid()
      modifies this
      ensures Valid()
      ensures value == text && lastValue == text && undoStack == [] && redoStack == []
    {
      isUndoRedo := true;
      AssignValue(text);
      lastValue := text;
      undoStack, redoStack := [], [];
      isUndoRedo := false;
    }

    /** `window.insertText(text)`. */
    method InsertText(text: string)
      requires Valid()
      modifies this
      ensures Valid()
      ensures Edit(value, selectionStart, selectionEnd)
        == ReplaceSelection(old(value), old(selectionStart), old(selectionEnd), text)
      ensures Hist() == Save(old(Hist()), value, false)
    {
      Commit(ReplaceSelection(value, selectionStart, selectionEnd, text));
    }

    /** `window.wrapSelection(before, after)`, with "Text" as placeholder. */
    method WrapSelection(before: string, after: string)
      requires Valid()
      modifies this
      ensures Valid()
      ensures Edit(value, selectionStart, selectionEnd)
        == Wrap(old(value), old(selectionStart), old(selectionEnd), before, after, "Text")
      ensures Hist() == Save(old(Hist()), value, false)
    {
      Commit(Wrap(value, selectionStart, selectionEnd, before, after, "Text"));
    }

    /** `window.insertAtLineStart(prefix)`. */
    method InsertAtLineStart(prefix: string)
      requires Valid()
      modifies this
      ensures Valid()
      ensures Edit(value, selectionStart, selectionEnd) == PrefixLine(old(value), old(selectionStart), prefix)
      ensures Hist() == Save(old(Hist()), value, false)
    {
      Commit(PrefixLine(value, selectionStart, prefix));
    }
  }

  /** What a caller can rely on: undo then redo leaves the text and both
      stacks as they were. */
  method UndoRedoClient(e: EditorScript)
    requires e.Valid() && e.undoStack != []
    modifies e
    ensures e.Valid()
    ensures e.value == old(e.value) && e.undoStack == old(e.undoStack) && e.redoStack == old(e.redoStack)
  {
    ghost var h0, v0 := e.Hist(), e.value;
    var undone := e.Undo();
    ghost var h1, v1 := e.Hist(), e.value;
    var redone := e.Redo();
    UndoThenRedo(h0, v0);
  }
}
