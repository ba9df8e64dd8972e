// The textarea edits that both embedded editor scripts perform (the WPF one in
// Services/EditorService.cs and the VS Code webview in
// VSCodeExtension/src/extension.ts): replace the selection, wrap it in
// Markdown markers, or put a prefix at the start of the caret's line.
// `value` is a sequence of Unicode scalar values and offsets count characters,
// not UTF-16 code units; the selection is the pair of offsets
// `selectionStart <= selectionEnd`.

module TextArea {
  import opened StringUtil

  /** A textarea's value with its selection after an edit. */
  datatype Edit = Edit(value: string, selStart: nat, selEnd: nat)

  predicate SelectionIn(value: string, start: nat, end: nat)
  {
    start <= end <= |value|
  }

  /** `value.substring(0, start) + text + value.substring(end)` with the
      caret put right after the inserted text (Tab, Enter, `insertText`). */
  function ReplaceSelection(value: string, start: nat, end: nat, text: string): (e: Edit)
    requires SelectionIn(value, start, end)
    ensures SelectionIn(e.value, e.selStart, e.selEnd)
    ensures e.selStart == e.selEnd == start + |text|
    ensures |e.value| == |value| - (end - start) + |text|
    ensures e.value[..start] == value[..start]
    ensures e.value[start..e.selStart] == text
    ensures e.value[e.selEnd..] == value[end..]
  {
    var v := value[..start] + text + value[end..];
    assert v[..start] == value[..start];
    assert v[start..start + |text|] == text;
    assert v[start + |text|..] == value[end..];
    Edit(v, start + |text|, start + |text|)
  }

  /** `wrapSelection` / `applyFormat`: a non-empty selection is wrapped in
      `before` and `after` and stays selected; an empty one gets the
      placeholder, which is selected. */
  function Wrap(value: string, start: nat, end: nat, before: string, after: string, placeholder: string): (e: Edit)
    requires SelectionIn(value, start, end)
    ensures SelectionIn(e.value, e.selStart, e.selEnd)
    ensures e.selStart == start + |before|
    ensures e.value[e.selStart..e.selEnd] == if start < end then value[start..end] else placeholder
    ensures e.value[..start] == value[..start]
    ensures e.value[start..e.selStart] == before
    ensures e.selEnd + |after| <= |e.value|
    ensures e.value[e.selEnd..e.selEnd + |after|] == after
    ensures e.value[e.selEnd + |after|..] == value[end..]
  {
    var middle := if start < end then value[start..end] else placeholder;
    var v := value[..start] + before + middle + after + value[end..];
    var s := start + |before|;
    var t := s + |middle|;
    assert v[..start] == value[..start];
    assert v[start..s] == before;
    assert v[s..t] == middle;
    assert v[t..t + |after|] == after;
    assert v[t + |after|..] == value[end..];
    Edit(v, s, t)
  }

  /** `text.lastIndexOf('\n', caret - 1) + 1`: the start of the caret's line.
      With the caret at 0, JavaScript clamps the negative search position to
      0, so a newline at index 0 puts the "line start" after it. */
  function LineStart(text: string, caret: nat): (r: nat)
    requires caret <= |text|
    ensures r <= |text|
    ensures caret > 0 ==> r <= caret && (r == 0 || text[r - 1] == '\n')
    ensures forall j :: r <= j < caret ==> text[j] != '\n'
    ensures caret == 0 ==> r == (if |text| > 0 && text[0] == '\n' then 1 else 0)
  {
    LastIndexOf(text, '\n', caret - 1) + 1
  }

  /** `insertAtLineStart(prefix)`: the prefix goes in at `LineStart` and the
      caret moves on by the prefix's length. */
  function PrefixLine(value: string, start: nat, prefix: string): (e: Edit)
    requires start <= |value|
    ensures SelectionIn(e.value, e.selStart, e.selEnd)
    ensures e.selStart == e.selEnd == start + |prefix|
    ensures
      var ls := LineStart(value, start);
      && |e.value| == |value| + |prefix|
      && e.value[..ls] == value[..ls]
      && e.value[ls..ls + |prefix|] == prefix
      && e.value[ls + |prefix|..] == value[ls..]
  {
    var ls := LineStart(value, start);
    var v := value[..ls] + prefix + value[ls..];
    assert v[..ls] == value[..ls];
    assert v[ls..ls + |prefix|] == prefix;
    assert v[ls + |prefix|..] == value[ls..];
    Edit(v, start + |prefix|, start + |prefix|)
  }

  // ---------------------------------------------------------------------

  /** Wrapping and then deleting the markers (and the placeholder, when
      nothing was selected) gives back the original text: the new selection
      holds exactly the old selected text. */
  lemma {:induction false} WrapThenUnwrap(value: string, start: nat, end: nat, before: string, after: string, placeholder: string)
    requires SelectionIn(value, start, end)
    ensures
      var e := Wrap(value, start, end, before, after, placeholder);
      var kept := if start < end then e.value[e.selStart..e.selEnd] else [];
      e.value[..start] + kept + e.value[e.selEnd + |after|..] == value
  {
    var e := Wrap(value, start, end, before, after, placeholder);
    assert value == value[..start] + value[start..end] + value[end..];
  }

  /** With the caret on a line that is not the first, the prefix lands right
      after the previous line's newline, before the caret. */
  lemma PrefixLineStartsLine(value: string, start: nat, prefix: string)
    requires 0 < start <= |value|
    ensures
      var e := PrefixLine(value, start, prefix);
      var ls := LineStart(value, start);
      && ls <= start
      && (ls == 0 || e.value[ls - 1] == '\n')
      && e.value[ls..ls + |prefix|] == prefix
      && forall j :: ls + |prefix| <= j < start + |prefix| ==> e.value[j] != '\n'
  {
    var e := PrefixLine(value, start, prefix);
    var ls := LineStart(value, start);
    assert e.value == value[..ls] + prefix + value[ls..];
    forall j | ls + |prefix| <= j < start + |prefix|
      ensures e.value[j] != '\n'
    {
      assert e.value[j] == value[j - |prefix|];
    }
    if ls > 0 {
      assert e.value[ls - 1] == value[ls - 1];
    }
  }

  /** With the caret at 0 and a newline first, the prefix goes in after that
      newline, not at the start of the (empty) first line. */
  lemma PrefixLineAtZeroSkipsLeadingNewline(rest: string, prefix: string)
    ensures PrefixLine("\n" + rest, 0, prefix).value == "\n" + prefix + rest
  {
    var value := "\n" + rest;
    assert LineStart(value, 0) == 1;
    assert value[..1] == "\n" && value[1..] == rest;
  }
}
