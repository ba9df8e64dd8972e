// The VS Code webview editor of VSCodeExtension/src/extension.ts: the
// escaper applied to the selected text, the textarea's first value that the
// page's HTML template gives it, and the page script's textarea edits and
// dirty-tracking saves. The escaper prepares the text for a template literal,
// but the template writes it, between backquotes, as the textarea's HTML
// content; the model keeps that as written (`PageValue`) beside the intended
// first value (`IntendedPageValue`).
// Preview rendering, the status line, `focus()` and the timers themselves are
// not modelled: a timer firing is the call of the method it would run.

module WebviewEditor {
  import opened Optional
  import opened StringUtil
  import opened TextArea

  /** The escaper: every backslash doubled, then a backslash put before
      every backquote, then before every dollar sign, each pass over the
      whole text in that order. */
  function Escape(s: string): string
  {
    Replace(Replace(Replace(s, "\\", "\\\\"), "`", "\\`"), "$", "\\$")
  }

  /** The characters a template literal gives a meaning to. */
  predicate Special(c: char)
  {
    c == '\\' || c == '`' || c == '$'
  }

  /** Reference definition: each character on its own, with a backslash put
      before the special ones. */
  function EscapeChar(c: char): string
  {
    if Special(c) then ['\\', c] else [c]
  }

  function EscapeEach(s: string): string
  {
    if s == [] then [] else EscapeChar(s[0]) + EscapeEach(s[1..])
  }

  /** How the body of a template literal reads back: `\\`, `\``, `\$` give
      the escaped character; CR LF and a lone CR read back as LF; an
      unescaped backquote would end the literal and an unescaped `${` would
      start a substitution (`None`), and any other escape sequence is
      outside what the escaper produces (`None` as well). */
  function TemplateRead(t: string): Option<string>
    decreases |t|
  {
    if t == [] then Some([])
    else if t[0] == '\\' then
      if |t| >= 2 && Special(t[1]) then
        match TemplateRead(t[2..])
        case Some(rest) => Some([t[1]] + rest)
        case None => None
      else None
    else if t[0] == '`' then None
    else if t[0] == '$' && |t| >= 2 && t[1] == '{' then None
    else if t[0] == '\r' && |t| >= 2 && t[1] == '\n' then
      match TemplateRead(t[2..])
      case Some(rest) => Some("\n" + rest)
      case None => None
    else
      match TemplateRead(t[1..])
      case Some(rest) => Some([if t[0] == '\r' then '\n' else t[0]] + rest)
      case None => None
  }

  // ---------------------------------------------------------------------

  /** A one-character text under a one-character pattern. */
  lemma ReplaceOneChar(c: char, p: char, rep: string)
    ensures Replace([c], [p], rep) == if c == p then rep else [c]
  {
    if c == p {
      ReplaceAtMatch([p], [], rep);
      assert [p] + [] == [p];
    } else {
      assert !([p] <= [c]) by {
        assert [p][0] != [c][0];
      }
      assert [c][1..] == [];
    }
  }

  /** The three passes on a single character. */
  lemma EscapeOneChar(c: char)
    ensures Escape([c]) == EscapeChar(c)
  {
    var r1 := Replace([c], "\\", "\\\\");
    ReplaceOneChar(c, '\\', "\\\\");
    if c == '\\' {
      assert r1 == ['\\'] + ['\\'];
      ReplaceCharConcat(['\\'], ['\\'], '`', "\\`");
      ReplaceOneChar('\\', '`', "\\`");
      ReplaceCharConcat(['\\'], ['\\'], '$', "\\$");
      ReplaceOneChar('\\', '$', "\\$");
    } else {
      ReplaceOneChar(c, '`', "\\`");
      if c == '`' {
        assert Replace([c], "`", "\\`") == ['\\'] + ['`'];
        ReplaceCharConcat(['\\'], ['`'], '$', "\\$");
        ReplaceOneChar('\\', '$', "\\$");
        ReplaceOneChar('`', '$', "\\$");
      } else {
        ReplaceOneChar(c, '$', "\\$");
      }
    }
  }

  /** Because every pattern is one character long, the chain of passes
      escapes character by character. */
  lemma {:induction false} EscapeIsEach(s: string)
    ensures Escape(s) == EscapeEach(s)
    decreases |s|
  {
    if s != [] {
      var c, t := s[0], s[1..];
      assert s == [c] + t;
      ReplaceCharConcat([c], t, '\\', "\\\\");
      var a1, b1 := Replace([c], "\\", "\\\\"), Replace(t, "\\", "\\\\");
      ReplaceCharConcat(a1, b1, '`', "\\`");
      var a2, b2 := Replace(a1, "`", "\\`"), Replace(b1, "`", "\\`");
      ReplaceCharConcat(a2, b2, '$', "\\$");
      assert Escape(s) == Escape([c]) + Escape(t);
      EscapeOneChar(c);
      EscapeIsEach(t);
    }
  }

  /** The escaped text is longer by one for each backslash, backquote and
      dollar sign. */
  lemma {:induction false} EscapeEachLength(s: string)
    ensures |EscapeEach(s)| == |s| + Count(s, '\\') + Count(s, '`') + Count(s, '$')
    decreases |s|
  {
    if s != [] {
      EscapeEachLength(s[1..]);
    }
  }

  lemma EscapeLength(s: string)
    ensures |Escape(s)| == |s| + Count(s, '\\') + Count(s, '`') + Count(s, '$')
  {
    EscapeIsEach(s);
    EscapeEachLength(s);
  }

  /** The first character of an escaped non-empty text. */
  lemma EscapeEachHead(t: string)
    requires t != []
    ensures EscapeEach(t) != [] && EscapeEach(t)[0] == (if Special(t[0]) then '\\' else t[0])
  {
  }

  /** Reading the escaped text back as a template literal gives the original
      text with its line endings normalized to LF: nothing ends the literal
      early or starts a substitution. */
  lemma {:induction false} TemplateReadEscapeEach(s: string)
    ensures TemplateRead(EscapeEach(s)) == Some(NormalizeNewlines(s))
    decreases |s|
  {
    if s != [] {
      var c, t := s[0], s[1..];
      var e := EscapeEach(s);
      assert e == EscapeChar(c) + EscapeEach(t);
      if Special(c) {
        TemplateReadEscapeEach(t);
        assert e[2..] == EscapeEach(t);
      } else if c == '\r' && |s| >= 2 && s[1] == '\n' {
        var u := s[2..];
        assert t == ['\n'] + u;
        assert EscapeEach(t) == EscapeChar('\n') + EscapeEach(u);
        TemplateReadEscapeEach(u);
        assert e[2..] == EscapeEach(u);
      } else {
        TemplateReadEscapeEach(t);
        if t != [] {
          EscapeEachHead(t);
          assert e[1] == EscapeEach(t)[0];
        }
        assert e[1..] == EscapeEach(t);
      }
    }
  }

  /** The escaper's round trip: the text comes back, with CR LF and lone CR
      read as LF. */
  lemma EscapeRoundTrip(s: string)
    ensures TemplateRead(Escape(s)) == Some(NormalizeNewlines(s))
  {
    EscapeIsEach(s);
    TemplateReadEscapeEach(s);
  }

  // ---------------------------------------------------------------------

  // ---------------------------------------------------------------------
  // The page's first value

  /** What the textarea holds when the page loads, as written: the HTML
      template writes a backquote, the escaped text and another backquote
      between the textarea tags, and HTML does not read template-literal
      escapes, so the backquotes and the added backslashes stay. */
  function PageValue(text: string): string
  {
    "`" + Escape(text) + "`"
  }

  /** As written, the page never starts with the document text: it is always
      longer by the two backquotes and one backslash per special character. */
  lemma PageValueIsNotText(text: string)
    ensures |PageValue(text)| == |text| + 2 + Count(text, '\\') + Count(text, '`') + Count(text, '$')
    ensures PageValue(text) != text
  {
    EscapeLength(text);
  }

  /** For the text `a`, the textarea shows `` `a` ``. */
  lemma PageValueExample()
    ensures PageValue("a") == "`a`"
  {
    EscapeOneChar('a');
  }

  /** What the escaper was written for: the escaped text read back as the
      body of a template literal, as a script assigning `editor.value`
      would. This is the document text with its line endings read as LF,
      and exactly the document text when it holds no CR. */
  function IntendedPageValue(text: string): (r: string)
    ensures r == NormalizeNewlines(text)
    ensures (forall i :: 0 <= i < |text| ==> text[i] != '\r') ==> r == text
  {
    EscapeRoundTrip(text);
    TemplateRead(Escape(text)).value
  }

  // ---------------------------------------------------------------------
  // Messages

  /** What the page posts to the extension. */
  datatype Message = Update(text: string) | Close

  /** The text of the last `update` in `msgs`, if any. */
  function LastUpdate(msgs: seq<Message>): (r: Option<string>)
    ensures r.None? <==> forall i :: 0 <= i < |msgs| ==> !msgs[i].Update?
    ensures r.Some? ==> Update(r.value) in msgs
  {
    if msgs == [] then None
    else if msgs[|msgs| - 1].Update? then Some(msgs[|msgs| - 1].text)
    else LastUpdate(msgs[..|msgs| - 1])
  }

  /** The text found is that of an update after which no update was
      posted. */
  lemma {:induction false} LastUpdateIsLast(msgs: seq<Message>)
    requires LastUpdate(msgs).Some?
    ensures exists i ::
      0 <= i < |msgs| && msgs[i] == Update(LastUpdate(msgs).value) && forall j :: i < j < |msgs| ==> !msgs[j].Update?
    decreases |msgs|
  {
    var n := |msgs|;
    if msgs[n - 1].Update? {
      assert msgs[n - 1] == Update(LastUpdate(msgs).value);
    } else {
      var init := msgs[..n - 1];
      LastUpdateIsLast(init);
      var i :| 0 <= i < |init| && init[i] == Update(LastUpdate(init).value)
        && forall j :: i < j < |init| ==> !init[j].Update?;
      assert msgs[i] == init[i];
      assert forall j :: i < j < n ==> !msgs[j].Update? by {
        forall j | i < j < n
          ensures !msgs[j].Update?
        {
          if j < n - 1 {
            assert msgs[j] == init[j];
          }
        }
      }
    }
  }

  /** What the extension's document holds for the edited range: the text
      of the last update, or the original text when none was posted. */
  function Received(document: string, msgs: seq<Message>): string
  {
    match LastUpdate(msgs)
    case Some(t) => t
    case None => document
  }

  /** The webview page: the textarea, `lastSavedContent` and the messages
      posted so far. `first` is the textarea's value when the page loaded
      and `document` the text the page was opened for. */
  class WebviewScript {
    var value: string
    var selectionStart: nat
    var selectionEnd: nat
    var lastSavedContent: string
    var outbox: seq<Message>
    ghost var first: string
    ghost var document: string

    /** The selection lies inside the value, and `lastSavedContent` is the
        text last posted, or the first value when nothing was posted. */
    ghost predicate Valid()
      reads this
    {
      && SelectionIn(value, selectionStart, selectionEnd)
      && lastSavedContent == (match LastUpdate(outbox) case Some(t) => t case None => first)
    }

    /** What the extension holds now. */
    ghost function Extension(): string
      reads this
    {
      Received(document, outbox)
    }

    /** The page as written: the textarea starts with `PageValue(text)`
        and `lastSavedContent = editor.value`. */
    constructor (text: string, start: nat, end: nat)
      requires SelectionIn(PageValue(text), start, end)
      ensures Valid()
      ensures value == PageValue(text) && lastSavedContent == value && outbox == []
      ensures selectionStart == start && selectionEnd == end
      ensures first == value && document == text
    {
      value := PageValue(text);
      selectionStart, selectionEnd := start, end;
      lastSavedContent := PageValue(text);
      outbox := [];
      first := PageValue(text);
      document := text;
    }

    /** The page as intended: the textarea starts with the document text,
        its line endings read as LF. */
    constructor Intended(text: string, start: nat, end: nat)
      requires SelectionIn(NormalizeNewlines(text), start, end)
      ensures Valid()
      ensures value == NormalizeNewlines(text) && lastSavedContent == value && outbox == []
      ensures selectionStart == start && selectionEnd == end
      ensures first == value && document == text
    {
      value := IntendedPageValue(text);
      selectionStart, selectionEnd := start, end;
      lastSavedContent := value;
      outbox := [];
      first := value;
      document := text;
    }

    /** Whether the text differs from what was last saved. */
    predicate Dirty()
      reads this
    {
      value != lastSavedContent
    }

    /** The user typing. The `input` listener only re-arms the auto-save
        timer; `AutoSave` is that timer firing. */
    method Input(newValue: string, newStart: nat, newEnd: nat)
      requires Valid() && SelectionIn(newValue, newStart, newEnd)
      modifies this`value, this`selectionStart, this`selectionEnd
      ensures Valid()
      ensures value == newValue && selectionStart == newStart && selectionEnd == newEnd
    {
      value, selectionStart, selectionEnd := newValue, newStart, newEnd;
    }

    method Apply(e: Edit)
      requires Valid() && SelectionIn(e.value, e.selStart, e.selEnd)
      modifies this`value, this`selectionStart, this`selectionEnd
      ensures Valid()
      ensures Edit(value, selectionStart, selectionEnd) == e
    {
      value, selectionStart, selectionEnd := e.value, e.selStart, e.selEnd;
    }

    /** The Tab key: the selection becomes four spaces. */
    method KeyTab()
      requires Valid()
      modifies this`value, this`selectionStart, this`selectionEnd
      ensures Valid()
      ensures Edit(value, selectionStart, selectionEnd)
        == ReplaceSelection(old(value), old(selectionStart), old(selectionEnd), "    ")
    {
      Apply(ReplaceSelection(value, selectionStart, selectionEnd, "    "));
    }

    /** The Enter key: the selection becomes a Markdown hard break. */
    method KeyEnter()
      requires Valid()
      modifies this`value, this`selectionStart, this`selectionEnd
      ensures Valid()
      ensures Edit(value, selectionStart, selectionEnd)
        == ReplaceSelection(old(value), old(selectionStart), old(selectionEnd), "  \n")
    {
      Apply(ReplaceSelection(value, selectionStart, selectionEnd, "  \n"));
    }

    /** `applyFormat(before, after)`, with "text" as placeholder. */
    method ApplyFormat(before: string, after: string)
      requires Valid()
      modifies this`value, this`selectionStart, this`selectionEnd
      ensures Valid()
      ensures Edit(value, selectionStart, selectionEnd)
        == Wrap(old(value), old(selectionStart), old(selectionEnd), before, after, "text")
    {
      Apply(Wrap(value, selectionStart, selectionEnd, before, after, "text"));
    }

    /** `insertAtLineStart(prefix)`. */
    method InsertAtLineStart(prefix: string)
      requires Valid()
      modifies this`value, this`selectionStart, this`selectionEnd
      ensures Valid()
      ensures Edit(value, selectionStart, selectionEnd) == PrefixLine(old(value), old(selectionStart), prefix)
    {
      Apply(PrefixLine(value, selectionStart, prefix));
    }

    /** `autoSave()`: an update is posted only when the text changed since
        the last save, and afterwards the page is clean. */
    method AutoSave()
      requires Valid()
      modifies this`lastSavedContent, this`outbox
      ensures Valid() && !Dirty()
      ensures outbox == old(outbox) + (if old(Dirty()) then [Update(value)] else [])
    {
      var currentContent := value;
      if currentContent != lastSavedContent {
        outbox := outbox + [Update(currentContent)];
        lastSavedContent := currentContent;
      }
    }

    /** `saveChanges()`: always posts the text. */
    method SaveChanges()
      requires Valid()
      modifies this`lastSavedContent, this`outbox
      ensures Valid() && !Dirty()
      ensures outbox == old(outbox) + [Update(value)]
    {
      outbox := outbox + [Update(value)];
      lastSavedContent := value;
    }

    /** `closeEditor()`: saves first when dirty, then always asks to close;
        the extension has then received the final text. */
    method CloseEditor()
      requires Valid()
      modifies this`lastSavedContent, this`outbox
      ensures Valid() && !Dirty()
      ensures outbox == old(outbox) + (if old(Dirty()) then [Update(value)] else []) + [Close]
      ensures old(Dirty()) ==> LastUpdate(outbox) == Some(value)
      ensures LastUpdate(outbox) == Some(value) || (LastUpdate(outbox).None? && value == first)
    {
      if value != lastSavedContent {
        SaveChanges();
      }
      outbox := outbox + [Close];
    }
  }

  /** On a page whose first value is the document text, closing leaves the
      extension holding the textarea's final text. */
  method CloseDelivers(p: WebviewScript)
    requires p.Valid() && p.first == p.document
    modifies p
    ensures p.Valid() && p.Extension() == p.value
  {
    p.CloseEditor();
  }

  /** As written, opening a page and pressing Save without editing replaces
      the document text with the backquoted, escaped text. */
  method SaveUneditedAsWritten(text: string) returns (p: WebviewScript)
    ensures p.Valid() && p.Extension() == PageValue(text) && p.Extension() != text
  {
    p := new WebviewScript(text, 0, 0);
    p.SaveChanges();
    PageValueIsNotText(text);
  }

  /** With the intended first value, the same steps give back the text,
      with its line endings as LF. */
  method SaveUneditedIntended(text: string) returns (p: WebviewScript)
    ensures p.Valid() && p.Extension() == NormalizeNewlines(text)
    ensures (forall i :: 0 <= i < |text| ==> text[i] != '\r') ==> p.Extension() == text
  {
    p := new WebviewScript.Intended(text, 0, 0);
    p.SaveChanges();
  }

  /** The timer firing twice with no edit in between posts one update
      when the page was dirty and nothing otherwise: the second firing
      posts nothing. */
  method AutoSaveTwice(p: WebviewScript)
    requires p.Valid()
    modifies p
    ensures p.Valid() && !p.Dirty()
    ensures p.outbox == old(p.outbox) + (if old(p.Dirty()) then [Update(old(p.value))] else [])
  {
    p.AutoSave();
    ghost var mid := p.outbox;
    p.AutoSave();
    assert p.outbox == mid;
  }
}
