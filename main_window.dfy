// The text handling inside the WPF window's event handlers
// (MainWindow.xaml.cs): loading a file's sections, importing from the
// clipboard (with literal-escape normalization, replace or append, the
// import label and the line count) and the CRLF to LF step before export.
// Dialogs, the clipboard and the file system are inputs; `SetEditorText`
// is the result the handler hands to the editor script.

module MainWindow {
  import opened StringUtil
  import JsonImport

  /** A section as `LoadSectionsFromFile` returns it. */
  datatype MarkdownSection = MarkdownSection(title: string, content: string)

  /** How the section navigator was closed: `Cancelled` when its dialog
      result is not `true`, otherwise the `SelectedSectionIndex` it set
      (-2 for "combine all"). */
  datatype Navigator = Cancelled | Chosen(index: int)

  /** What the load handler does with the editor. A section index outside
      the list throws inside the handler's `try` and ends in an error box. */
  datatype LoadOutcome = NothingLoaded | Loaded(text: string) | LoadError

  /** The reply to the question asked before a clipboard import: Yes
      replaces the editor's text, No appends to it. */
  datatype Answer = Yes | No | Cancel

  /** What the clipboard import does. */
  datatype ImportOutcome = NothingImported | Imported(text: string, kind: string, lines: nat)

  const SectionSeparator: string := "\n\n---\n\n"

  // ---------------------------------------------------------------------
  // Combine all sections

  /** One section in the combined text: an HTML comment with its title,
      a newline, then its content. */
  function SectionBlock(s: MarkdownSection): string
  {
    "<!-- " + s.title + " -->\n" + s.content
  }

  function Blocks(sections: seq<MarkdownSection>): seq<string>
  {
    seq(|sections|, i requires 0 <= i < |sections| => SectionBlock(sections[i]))
  }

  /** `string.Join("\n\n---\n\n", sections.Select(...))`. */
  function Combine(sections: seq<MarkdownSection>): string
  {
    Join(SectionSeparator, Blocks(sections))
  }

  lemma {:induction false} JoinStartsWithFirst(sep: string, parts: seq<string>)
    requires |parts| > 0
    ensures parts[0] <= Join(sep, parts)
    decreases |parts|
  {
    if |parts| > 1 {
      JoinStartsWithFirst(sep, parts[..|parts| - 1]);
    }
  }

  /** The combined text starts with the first section's block, ends with
      the last one's, and holds exactly n - 1 separators' worth of extra
      text for n sections. */
  lemma CombineShape(sections: seq<MarkdownSection>)
    requires |sections| > 0
    ensures SectionBlock(sections[0]) <= Combine(sections)
    ensures
      var c := Combine(sections);
      var last := SectionBlock(sections[|sections| - 1]);
      |last| <= |c| && c[|c| - |last|..] == last
    ensures |Combine(sections)| == TotalLength(Blocks(sections)) + (|sections| - 1) * |SectionSeparator|
  {
    var parts := Blocks(sections);
    JoinStartsWithFirst(SectionSeparator, parts);
    JoinLength(SectionSeparator, parts);
  }

  // ---------------------------------------------------------------------
  // Loading a file

  /** The load handler after the file dialog: more than one section shows
      the navigator, exactly one is loaded directly, none falls back to
      extracting the whole file (`LoadFromFile`, whose text and parse are
      inputs here). */
  function LoadDispatch(sections: seq<MarkdownSection>, nav: Navigator, fileText: string, fileDoc: JsonImport.Document): LoadOutcome
  {
    if |sections| > 1 then
      match nav
      case Cancelled => NothingLoaded
      case Chosen(i) =>
        if i == -2 then Loaded(Combine(sections))
        else if i >= 0 then
          if i < |sections| then Loaded(sections[i].content) else LoadError
        else NothingLoaded
    else if |sections| == 1 then Loaded(sections[0].content)
    else Loaded(JsonImport.Extracted(fileText, fileDoc))
  }

  /** The editor is only changed by a load that yields a text, and what it
      receives is always one of: a section's content, the combined text, or
      the whole file's extraction. Which one follows from the number of
      sections and the navigator's answer. */
  lemma LoadedTextOrigin(sections: seq<MarkdownSection>, nav: Navigator, fileText: string, fileDoc: JsonImport.Document)
    ensures
      var r := LoadDispatch(sections, nav, fileText, fileDoc);
      r.Loaded? ==>
        || (exists i :: 0 <= i < |sections| && r.text == sections[i].content)
        || (|sections| > 1 && r.text == Combine(sections))
        || (|sections| == 0 && r.text == JsonImport.Extracted(fileText, fileDoc))
    ensures |sections| == 0 ==> LoadDispatch(sections, nav, fileText, fileDoc) == Loaded(JsonImport.Extracted(fileText, fileDoc))
    ensures |sections| == 1 ==> LoadDispatch(sections, nav, fileText, fileDoc) == Loaded(sections[0].content)
    ensures |sections| > 1 ==>
      && (nav.Cancelled? ==> LoadDispatch(sections, nav, fileText, fileDoc) == NothingLoaded)
      && (nav == Chosen(-2) ==> LoadDispatch(sections, nav, fileText, fileDoc) == Loaded(Combine(sections)))
      && (nav.Chosen? && 0 <= nav.index < |sections| ==>
            LoadDispatch(sections, nav, fileText, fileDoc) == Loaded(sections[nav.index].content))
      && (nav.Chosen? && nav.index >= |sections| ==> LoadDispatch(sections, nav, fileText, fileDoc) == LoadError)
      && (nav.Chosen? && nav.index < 0 && nav.index != -2 ==> LoadDispatch(sections, nav, fileText, fileDoc) == NothingLoaded)
  {
    var r := LoadDispatch(sections, nav, fileText, fileDoc);
    if r.Loaded? && |sections| == 1 {
      assert r.text == sections[0].content;
    } else if r.Loaded? && |sections| > 1 && nav.Chosen? && 0 <= nav.index < |sections| {
      assert r.text == sections[nav.index].content;
    }
  }

  // ---------------------------------------------------------------------
  // Clipboard import

  /** Whether the clipboard text, without leading white space, starts with
      `{` or `[`. */
  predicate LooksLikeJson(clipboardText: string)
  {
    StartsWithChar(TrimStart(clipboardText), '{') || StartsWithChar(TrimStart(clipboardText), '[')
  }

  /** The three replace passes over literal escapes: backslash-n twice,
      backslash-n, backslash-t. */
  function NormalizeEscapes(s: string): string
  {
    Replace(Replace(Replace(s, "\\n\\n", "\n\n"), "\\n", "\n"), "\\t", "\t")
  }

  /** The normalization runs only for clipboard text that does not look like
      JSON, and only when the extracted content holds a literal
      backslash-n; a content with only a literal backslash-t stays as it
      is. */
  function NormalizeClipboard(clipboardText: string, content: string): string
  {
    if !LooksLikeJson(clipboardText) && Contains(content, "\\n") then NormalizeEscapes(content)
    else content
  }

  /** Append mode: the current text, an empty line, the imported text. */
  function AppendImport(current: string, imported: string): string
  {
    current + "\n\n" + imported
  }

  /** `text.Split('\n').Length`. */
  function LineCount(s: string): (n: nat)
    ensures n >= 1
  {
    SplitLength(s, '\n')
  }

  /** The label shown after an import. It looks at the clipboard text,
      not at the extracted content. */
  function ImportLabel(clipboardText: string): string
  {
    if LooksLikeJson(clipboardText) then "JSON"
    else if Contains(clipboardText, "\\n") then "Text (mit \\n konvertiert)"
    else "Text"
  }

  /** The clipboard import handler. `extracted` is what `LoadFromClipboard`
      returns for the clipboard text, `current` the editor's text, and
      `answer` the reply to the question, which is asked only when the
      editor is not blank. */
  method ImportFromClipboard(clipboardText: string, extracted: string, current: string, answer: Answer)
    returns (r: ImportOutcome)
    ensures IsBlank(clipboardText) ==> r == NothingImported
    ensures IsBlank(NormalizeClipboard(clipboardText, extracted)) ==> r == NothingImported
    ensures !IsBlank(current) && answer == Cancel ==> r == NothingImported
    ensures r.Imported? ==>
      && !IsBlank(clipboardText)
      && !IsBlank(r.text)
      && r.kind == ImportLabel(clipboardText)
      && r.lines == LineCount(r.text)
    ensures r.Imported? && (IsBlank(current) || answer == Yes) ==>
      r.text == NormalizeClipboard(clipboardText, extracted)
    ensures r.Imported? && !IsBlank(current) && answer == No ==>
      r.text == AppendImport(current, NormalizeClipboard(clipboardText, extracted))
    ensures
      && !IsBlank(clipboardText)
      && !IsBlank(NormalizeClipboard(clipboardText, extracted))
      && (IsBlank(current) || answer != Cancel)
      ==> r.Imported?
  {
    if IsBlank(clipboardText) {
      return NothingImported;
    }
    var content := extracted;
    if !LooksLikeJson(clipboardText) {
      if Contains(content, "\\n") {
        content := NormalizeEscapes(content);
      }
    }
    if IsBlank(content) {
      return NothingImported;
    }
    if !IsBlank(current) {
      if answer == Cancel {
        return NothingImported;
      } else if answer == No {
        AppendNotBlank(current, content);
        content := AppendImport(current, content);
      }
    }
    r := Imported(content, ImportLabel(clipboardText), LineCount(content));
  }

  // ---------------------------------------------------------------------
  // Export

  /** `text.Replace("\r\n", "\n")` before export. */
  function ToLf(s: string): string
  {
    Replace(s, "\r\n", "\n")
  }

  /** The text without any carriage return. */
  function WithoutCr(s: string): (r: string)
    ensures Count(r, '\r') == 0
    decreases |s|
  {
    if s == [] then []
    else if s[0] == '\r' then WithoutCr(s[1..])
    else [s[0]] + WithoutCr(s[1..])
  }

  // ---------------------------------------------------------------------
  // Facts

  /** A text that does not contain the pattern is left as it is. */
  lemma {:induction false} ReplaceNotContained(s: string, pat: string, rep: string)
    requires |pat| > 0 && !Contains(s, pat)
    ensures Replace(s, pat, rep) == s
    decreases |s|
  {
    if s != [] {
      NotContainsTail(s, pat, 1);
      ReplaceNotContained(s[1..], pat, rep);
      assert s == [s[0]] + s[1..];
    }
  }

  /** A text without `pat` has no occurrence of a longer pattern that
      starts with `pat` either. */
  lemma {:induction false} NotContainsExtension(s: string, pat: string, ext: string)
    requires !Contains(s, pat)
    ensures !Contains(s, pat + ext)
    decreases |s|
  {
    if s != [] {
      NotContainsTail(s, pat, 1);
      NotContainsExtension(s[1..], pat, ext);
    }
  }

  /** With the first character not a backslash, the backslash-n-twice pass
      passes it through. */
  lemma DoubleStepOther(s: string)
    requires s != [] && s[0] != '\\'
    ensures Replace(s, "\\n\\n", "\n\n") == [s[0]] + Replace(s[1..], "\\n\\n", "\n\n")
  {
  }

  /** After the backslash-n-twice pass, a text that did not start with `n`
      still does not. */
  lemma DoubleHead(t: string)
    requires t == [] || t[0] != 'n'
    ensures var y := Replace(t, "\\n\\n", "\n\n"); y == [] || y[0] != 'n'
  {
    if t != [] && "\\n\\n" <= t {
      ReplaceAtMatch("\\n\\n", t[4..], "\n\n");
      assert t == "\\n\\n" + t[4..];
    }
  }

  /** A backslash followed by a text that does not start with `n` is no
      literal backslash-n. */
  lemma NotBackslashN(y: string)
    requires y == [] || y[0] != 'n'
    ensures !("\\n" <= ['\\'] + y)
  {
    if y != [] {
      assert (['\\'] + y)[1] == y[0];
    }
  }

  /** Running the backslash-n-twice pass before the backslash-n pass gives
      the same text as the backslash-n pass alone. */
  lemma {:induction false} DoublePassRedundant(s: string)
    ensures Replace(Replace(s, "\\n\\n", "\n\n"), "\\n", "\n") == Replace(s, "\\n", "\n")
    decreases |s|
  {
    var P2, P1 := "\\n\\n", "\\n";
    if s == [] {
    } else if P2 <= s {
      var rest := s[4..];
      assert s == P2 + rest;
      assert s == P1 + (P1 + rest);
      ReplaceAtMatch(P2, rest, "\n\n");
      var y := Replace(rest, P2, "\n\n");
      ReplaceAtOtherHead('\n', ['\n'] + y, P1, "\n");
      ReplaceAtOtherHead('\n', y, P1, "\n");
      assert "\n\n" + y == ['\n'] + (['\n'] + y);
      ReplaceAtMatch(P1, P1 + rest, "\n");
      ReplaceAtMatch(P1, rest, "\n");
      DoublePassRedundant(rest);
    } else if s[0] != '\\' {
      DoubleStepOther(s);
      var y := Replace(s[1..], P2, "\n\n");
      ReplaceAtOtherHead(s[0], y, P1, "\n");
      assert s == [s[0]] + s[1..];
      ReplaceAtOtherHead(s[0], s[1..], P1, "\n");
      DoublePassRedundant(s[1..]);
    } else if |s| >= 2 && s[1] == 'n' {
      var rest := s[2..];
      assert s == P1 + rest;
      assert s[1..] == ['n'] + rest;
      var y := Replace(rest, P2, "\n\n");
      assert Replace(s, P2, "\n\n") == ['\\'] + Replace(s[1..], P2, "\n\n");
      assert Replace(s[1..], P2, "\n\n") == ['n'] + y;
      assert ['\\'] + (['n'] + y) == P1 + y;
      ReplaceAtMatch(P1, y, "\n");
      ReplaceAtMatch(P1, rest, "\n");
      DoublePassRedundant(rest);
    } else {
      var t := s[1..];
      assert s == ['\\'] + t;
      assert Replace(s, P2, "\n\n") == ['\\'] + Replace(t, P2, "\n\n");
      DoubleHead(t);
      var y := Replace(t, P2, "\n\n");
      NotBackslashN(y);
      NotBackslashN(t);
      ReplaceAtOther('\\', y, P1, "\n");
      ReplaceAtOther('\\', t, P1, "\n");
      DoublePassRedundant(t);
    }
  }

  /** The normalization is the backslash-n pass followed by the
      backslash-t pass. */
  lemma NormalizeIsTwoPasses(s: string)
    ensures NormalizeEscapes(s) == Replace(Replace(s, "\\n", "\n"), "\\t", "\t")
  {
    DoublePassRedundant(s);
  }

  /** After normalization no literal backslash-n or backslash-t is left. */
  lemma NormalizeLeavesNoEscapes(s: string)
    ensures !Contains(NormalizeEscapes(s), "\\n")
    ensures !Contains(NormalizeEscapes(s), "\\t")
  {
    var y := Replace(Replace(s, "\\n\\n", "\n\n"), "\\n", "\n");
    ReplacePairRemovesPair(Replace(s, "\\n\\n", "\n\n"), '\\', 'n', '\n');
    ReplacePairKeepsOtherPairOut(y, '\\', 't', '\t', 'n');
    ReplacePairRemovesPair(y, '\\', 't', '\t');
  }

  /** Normalizing twice is normalizing once. */
  lemma NormalizeIdempotent(s: string)
    ensures NormalizeEscapes(NormalizeEscapes(s)) == NormalizeEscapes(s)
  {
    var y := NormalizeEscapes(s);
    NormalizeLeavesNoEscapes(s);
    NotContainsExtension(y, "\\n", "\\n");
    assert "\\n" + "\\n" == "\\n\\n";
    ReplaceNotContained(y, "\\n\\n", "\n\n");
    ReplaceNotContained(y, "\\n", "\n");
    ReplaceNotContained(y, "\\t", "\t");
  }

  /** Importing the same clipboard text again over a normalized content
      changes nothing more. */
  lemma NormalizeClipboardIdempotent(clipboardText: string, content: string)
    ensures
      var once := NormalizeClipboard(clipboardText, content);
      NormalizeClipboard(clipboardText, once) == once
  {
    NormalizeLeavesNoEscapes(content);
  }

  /** Appending adds the line counts, plus one for the empty line between. */
  lemma AppendLineCount(current: string, imported: string)
    ensures LineCount(AppendImport(current, imported)) == LineCount(current) + LineCount(imported) + 1
  {
    CountConcat(current, "\n\n", '\n');
    CountConcat(current + "\n\n", imported, '\n');
  }

  /** A text that is not blank stays so with anything put before it. */
  lemma AppendNotBlank(current: string, imported: string)
    requires !IsBlank(imported)
    ensures !IsBlank(AppendImport(current, imported))
  {
    var k :| 0 <= k < |imported| && !IsWhiteSpace(imported[k]);
    assert AppendImport(current, imported)[|current| + 2 + k] == imported[k];
  }

  /** Appending keeps both texts, in order, around an empty line. */
  lemma AppendKeepsBoth(current: string, imported: string)
    ensures
      var r := AppendImport(current, imported);
      && r[..|current|] == current
      && r[|current|..|current| + 2] == "\n\n"
      && r[|current| + 2..] == imported
  {
  }

  /** The CRLF step removes carriage returns and nothing else. */
  lemma {:induction false} ToLfOnlyDropsCr(s: string)
    ensures WithoutCr(ToLf(s)) == WithoutCr(s)
    decreases |s|
  {
    if s == [] {
    } else if "\r\n" <= s {
      var rest := s[2..];
      assert s == "\r\n" + rest;
      ReplaceAtMatch("\r\n", rest, "\n");
      ToLfOnlyDropsCr(rest);
      assert WithoutCr(s) == WithoutCr(s[1..]);
      assert s[1..] == "\n" + rest;
      assert ("\n" + ToLf(rest))[1..] == ToLf(rest);
    } else {
      assert s == [s[0]] + s[1..];
      ReplaceAtOther(s[0], s[1..], "\r\n", "\n");
      ToLfOnlyDropsCr(s[1..]);
      assert ([s[0]] + ToLf(s[1..]))[1..] == ToLf(s[1..]);
    }
  }

  /** Without carriage returns the newline count is the same. */
  lemma {:induction false} WithoutCrKeepsNewlines(s: string)
    ensures Count(WithoutCr(s), '\n') == Count(s, '\n')
    decreases |s|
  {
    if s != [] {
      WithoutCrKeepsNewlines(s[1..]);
      if s[0] != '\r' {
        assert ([s[0]] + WithoutCr(s[1..]))[1..] == WithoutCr(s[1..]);
      }
    }
  }

  /** So the export's line count is that of the editor's text. */
  lemma ToLfKeepsLineCount(s: string)
    ensures LineCount(ToLf(s)) == LineCount(s)
  {
    ToLfOnlyDropsCr(s);
    WithoutCrKeepsNewlines(ToLf(s));
    WithoutCrKeepsNewlines(s);
  }

  /** A lone carriage return survives, and a CR before a CRLF leaves a CRLF
      behind: the step runs once, left to right. */
  lemma ToLfExamples()
    ensures ToLf("\r") == "\r"
    ensures ToLf("\r\r\n") == "\r\n"
  {
    ReplaceAtOther('\r', [], "\r\n", "\n");
    assert "\r" == ['\r'] + [];
    ReplaceAtMatch("\r\n", [], "\n");
    assert "\r\n" == "\r\n" + [];
    assert !("\r\n" <= "\r\r\n") by {
      assert "\r\r\n"[1] == '\r';
    }
    ReplaceAtOther('\r', "\r\n", "\r\n", "\n");
    assert "\r\r\n" == ['\r'] + "\r\n";
  }
}
