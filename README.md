# MarkdownJsonEditor core, modelled in Dafny

MarkdownJsonEditor is a Windows desktop editor for Markdown that is stored
inside JSON documents. It comes with a companion VS Code extension. This
project models the logic the program runs on text, and proves what that
logic guarantees:

- **Import extractor** (`JsonImport`, Services/JsonService.cs). It turns a
  JSON document into Markdown:
  - a typed view (`title`, `intro`, `sections[i].markdown`, `content`, `meta`);
  - then the `content` fallback;
  - then a "legacy" pass over the raw JSON root;
  - finally the input string itself.

  The typed branch is imperative, so it is a method with a loop over the
  sections. The method is proved against the function `Extracted`.
- **WPF editor script** (`WpfEditor`, the JavaScript inside
  Services/EditorService.cs). It is a textarea with an undo/redo history
  bounded at 100 entries. The model is a class whose methods update the
  value, the selection and the two stacks, as the script does.
- **Textarea edits** (`TextArea`). These are the edits both editor scripts
  perform: replacing the selection, wrapping it in Markdown markers, and
  prefixing the caret's line. `lineStart` uses JavaScript's `lastIndexOf`,
  including how it clamps a negative search position.
- **VS Code webview** (`WebviewEditor`, VSCodeExtension/src/extension.ts):
  - the escaper applied to the selected text, which prepares it for a
    JavaScript template literal;
  - the textarea's first value: the page's HTML template writes a backquote,
    the escaped text and another backquote as the textarea's content, so the
    page does not start with the selected text (see "## Findings");
  - the page script's edits;
  - its dirty tracking (`lastSavedContent`) and the messages it posts.
- **Window handlers** (`MainWindow`, MainWindow.xaml.cs):
  - the dispatch after loading a file's sections;
  - "combine all" sections;
  - the clipboard import (escape normalization, replace or append, the label, the line count);
  - the CRLF to LF step before export.
- **Image snippet** (`ImageMarkdown`, Services/ImageService.cs).
- **Shared primitives** (`StringUtil`). These are the runtime string
  operations the code relies on: .NET `Replace`, `TrimStart`, `Split` and
  `Join`, and JavaScript `lastIndexOf`. A string is a sequence of Dafny
  `char`s, which are Unicode scalar values (see "## Left out" for what this
  means for lengths and offsets).

JSON text is not parsed here. The extractor receives the tree the parser
would build (`Parsed(root)`), or `NotJson`. Objects keep their members in
document order, and a repeated key resolves to its last occurrence.

`ExtractContent` has no priority-key or leaf-collection heuristics and does
not split sections. It returns `content` without normalizing its escapes
(`JsonImport.ContentVerbatimExample`).

## Model

| member | source | states |
|---|---|---|
| StringUtil.Replace | MainWindow.xaml.cs:286-288 | Ordinal replace: occurrences of the pattern are found left to right and do not overlap, and each is replaced by the replacement. |
| StringUtil.IsWhiteSpace | MainWindow.xaml.cs:264 | The characters .NET `char.IsWhiteSpace` accepts: the Unicode space, line and paragraph separators, U+0009 to U+000D, U+0085 and U+00A0. |
| StringUtil.SplitLength | MainWindow.xaml.cs:329 | `Split(c).Length` is one more than the number of separators. |
| StringUtil.Join | MainWindow.xaml.cs:217 | No parts give "", one part gives itself, and more parts are separated by one separator each. |
| StringUtil.NormalizeNewlines | VSCodeExtension/src/extension.ts:268 | CR LF and a lone CR each become LF, as in a template literal: no CR is left, and a text without CR is unchanged. |
| StringUtil.TrimStart | MainWindow.xaml.cs:280 | The result is a suffix of the input. Everything dropped is white space in the .NET sense. The result is empty or starts with a non-white-space character. |
| StringUtil.LastIndexOf | Services/EditorService.cs:202 | The result is the last index at or before the clamped position that holds the character, or -1. A negative position is clamped to 0, so only index 0 is examined. |
| StringUtil.JoinLength | MainWindow.xaml.cs:217 | Joining n parts gives the total length of the parts plus n - 1 separators. |
| StringUtil.ReplaceCharConcat | VSCodeExtension/src/extension.ts:64 | A replace with a one-character pattern distributes over concatenation. |
| StringUtil.ReplacePairRemovesPair | MainWindow.xaml.cs:287 | Replacing a two-character pattern with a character different from both of its characters leaves no occurrence of it. |
| StringUtil.ReplacePairKeepsOtherPairOut | MainWindow.xaml.cs:288 | The backslash-t pass cannot create a literal backslash-n. |
| JsonImport.TypedViewOk | Services/JsonService.cs:39 | Typed binding applies to a `null` root or an object whose known properties all have compatible types. |
| JsonImport.LastValue | Services/JsonService.cs:89 | A key's value is the value of a member with that key. The result is None exactly when no member has the key. |
| JsonImport.LastValueIsLast | Services/JsonService.cs:89 | A repeated key resolves to its last occurrence: no member after the one found has the key. |
| JsonImport.Deserialize | Services/JsonService.cs:39-40 | Typed binding succeeds exactly when the root is an object or null and every known property has a compatible type. It yields null exactly for the JSON literal `null`. |
| JsonImport.Extracted | Services/JsonService.cs:35-98 | Not JSON gives the input. A failed typed binding gives the legacy result, a `null` document gives the input, and otherwise the assembly, or the legacy result when a section is null. |
| JsonImport.SectionLines | Services/JsonService.cs:59-68 | Each section with non-empty markdown contributes its markdown and NL, in array order. |
| JsonImport.Assemble | Services/JsonService.cs:42-76 | The title block, the intro block and the section lines. When these are empty, it gives the non-empty `content`, or else the input. |
| JsonImport.Legacy | Services/JsonService.cs:83-96 | A root string gives its value. A root object gives its last `content` string, or "" for null, or the input when the member is missing or not a string. Any other root gives the input. |
| JsonImport.ExtractContent | Services/JsonService.cs:35-98 | For every input, with no precondition, the method returns `Extracted`: it never throws. |
| JsonImport.AssembleTyped | Services/JsonService.cs:42-76 | The string-builder steps yield the assembled text, the `content` fallback or the input. A null section makes them throw. |
| JsonImport.AppendSections | Services/JsonService.cs:59-68 | The loop succeeds exactly when no section is null. It then yields each non-empty markdown followed by NL, in array order. |
| JsonImport.SectionLinesPrefix | Services/JsonService.cs:61-67 | The lines from the first k sections are a prefix of the lines from all sections. |
| JsonImport.SectionLinesEmptyIff | Services/JsonService.cs:59-68 | The sections contribute nothing exactly when no section has non-empty markdown. |
| JsonImport.ExtractTitleFirst | Services/JsonService.cs:45-49 | With a non-empty title, the result starts with "# " + title + NL + NL. |
| JsonImport.ExtractedIsAssembled | Services/JsonService.cs:76 | When assembly succeeds, the extractor returns the assembled text. |
| JsonImport.AssembleNonEmpty | Services/JsonService.cs:76 | A non-empty builder is returned as it is. |
| JsonImport.AssembledSectionPlacement | Services/JsonService.cs:44-68 | Section i's non-empty markdown + NL sits right after the title block, the intro block and the lines of sections 0..i-1. |
| JsonImport.ExtractSectionPlacement | Services/JsonService.cs:44-68 | The same placement holds in the extractor's result. |
| JsonImport.ExtractContentFallback | Services/JsonService.cs:71-74 | When nothing was assembled and `content` is non-empty, `content` is returned verbatim. |
| JsonImport.ExtractReturnsInput | Services/JsonService.cs:40-96 | The input comes back unchanged in three cases: it is not JSON, it is `null`, or the typed view has nothing to assemble and no content. |
| JsonImport.ExtractFallsBackToLegacy | Services/JsonService.cs:78-96 | When the typed view fails, or a section is null, the result depends on the root. A root string gives its value. A root object gives its last `content` string, or "" when it is null, or the input otherwise. Any other root gives the input. |
| JsonImport.NullSectionTakesLegacyPath | Services/JsonService.cs:61-63 | A null element anywhere in `sections` sends an otherwise well-typed document down the legacy path. |
| JsonImport.DeserializeWithoutMeta | Services/JsonService.cs:39 | Dropping the well-typed `meta` members binds the same document, with `meta` null. |
| JsonImport.LegacyWithoutMeta | Services/JsonService.cs:83-92 | The legacy pass does not depend on `meta` members. |
| JsonImport.AssembleIgnoresMeta | Services/JsonService.cs:42-76 | Assembly does not depend on the `meta` property. |
| JsonImport.MetaNeverMatters | Services/JsonService.cs:39-76 | A well-typed `meta` never changes the result. |
| JsonImport.TitleIntroExample | Services/JsonService.cs:45-56 | `{"title":"T","intro":"I"}` gives "# T" NL NL "I" NL NL. |
| JsonImport.ContentVerbatimExample | Services/JsonService.cs:71-74 | A content string keeps its literal backslash-n. |
| TextArea.ReplaceSelection | Services/EditorService.cs:169-173 | The text before the selection is kept, then the inserted text, then the text after the selection. The caret goes right after the insertion. |
| TextArea.Wrap | Services/EditorService.cs:179-192 | The text before stays, then `before`, then the selected text (or the placeholder when nothing was selected), then `after`, then the rest. Exactly the original text, or the placeholder, stays selected. |
| TextArea.LineStart | Services/EditorService.cs:202 | The result is the position after the last newline before the caret, and no newline lies between it and the caret. With the caret at 0, a newline at index 0 gives 1. |
| TextArea.PrefixLine | Services/EditorService.cs:199-205 | The prefix is inserted at `LineStart` and the rest is unchanged. The caret moves on by the prefix's length. |
| TextArea.WrapThenUnwrap | Services/EditorService.cs:184-187 | In the result, the new selection holds the old selected text. Deleting the markers (and the placeholder when nothing was selected) gives back the original text. |
| TextArea.PrefixLineStartsLine | Services/EditorService.cs:199-205 | Away from position 0, the prefix lands at the start of the caret's line. |
| TextArea.PrefixLineAtZeroSkipsLeadingNewline | Services/EditorService.cs:202 | With the caret at 0 and a newline first, the prefix goes after that newline. |
| WpfEditor.Save | Services/EditorService.cs:59-71 | The history is unchanged while an undo or redo runs, or when the value equals `lastValue`. Otherwise the old `lastValue` is pushed on top; exactly the oldest entry is dropped, and only when the stack already held 100 or more; redo is emptied, `lastValue` becomes the value, and the 100-entry bound is kept. |
| WpfEditor.UndoStep | Services/EditorService.cs:73-84 | With an empty undo stack it fails. Otherwise it pops the undo top as the new value and pushes the current value onto redo. |
| WpfEditor.RedoStep | Services/EditorService.cs:86-97 | It is the mirror image of `UndoStep`. |
| WpfEditor.SaveDropsOldest | Services/EditorService.cs:64-67 | At capacity, a recorded change drops the oldest undo entry and stays at 100. |
| WpfEditor.UndoMovesEntries | Services/EditorService.cs:73-84 | Undo keeps the total stack size and the multiset of all texts held. |
| WpfEditor.RedoMovesEntries | Services/EditorService.cs:86-97 | Redo keeps them likewise. |
| WpfEditor.UndoThenRedo | Services/EditorService.cs:73-97 | Undo followed by redo restores the value and both stacks. |
| WpfEditor.RedoThenUndo | Services/EditorService.cs:73-97 | Redo followed by undo restores them too. |
| WpfEditor.EditorScript.constructor | Services/EditorService.cs:49-57 | The script starts with an empty textarea, empty stacks and `lastValue` equal to the value. |
| WpfEditor.EditorScript.AssignValue | Services/EditorService.cs:162 | Assigning a different value puts the caret at the end. The same value keeps the selection. |
| WpfEditor.EditorScript.SaveState | Services/EditorService.cs:59-71 | The new history is `Save` of the old one. |
| WpfEditor.EditorScript.Undo | Services/EditorService.cs:73-84 | The method returns false and changes nothing when the undo stack is empty. Otherwise the new state is `UndoStep` of the old one, and the invariant is kept. When the restored value differs, the caret goes to its end. Otherwise the selection stays as it was. |
| WpfEditor.EditorScript.Redo | Services/EditorService.cs:86-97 | The mirror image of `Undo`, selection included. |
| WpfEditor.EditorScript.Input | Services/EditorService.cs:108-111 | Typing sets the value and the selection, then records the change. |
| WpfEditor.EditorScript.Commit | Services/EditorService.cs:169-209 | The textarea takes the edit's value and selection, then the change is recorded with `Save`. The invariant is kept. |
| WpfEditor.EditorScript.KeyTab | Services/EditorService.cs:115-123 | The selection becomes "\t" with the caret after it, and the change is recorded. |
| WpfEditor.EditorScript.KeyEnter | Services/EditorService.cs:126-138 | The selection becomes two spaces and a newline with the caret after it, and the change is recorded. |
| WpfEditor.EditorScript.SetText | Services/EditorService.cs:160-167 | The value and `lastValue` become the text and both stacks are emptied. |
| WpfEditor.EditorScript.InsertText | Services/EditorService.cs:169-177 | The selection is replaced by the text and the change is recorded. |
| WpfEditor.EditorScript.WrapSelection | Services/EditorService.cs:179-197 | `Wrap` with the placeholder "Text", and the change is recorded. |
| WpfEditor.EditorScript.InsertAtLineStart | Services/EditorService.cs:199-209 | `PrefixLine`, and the change is recorded. |
| WpfEditor.UndoRedoClient | Services/EditorService.cs:73-97 | Through the class, undo then redo leaves the value and both stacks as they were. |
| WebviewEditor.EscapeChar | VSCodeExtension/src/extension.ts:64 | A backslash, backquote or dollar sign gets a backslash before it. Every other character stays as it is. |
| WebviewEditor.Escape | VSCodeExtension/src/extension.ts:64 | Three passes over the whole text: backslashes doubled, then a backslash before each backquote, then before each dollar sign. |
| WebviewEditor.EscapeIsEach | VSCodeExtension/src/extension.ts:64 | The three replace passes equal escaping each character on its own. |
| WebviewEditor.EscapeLength | VSCodeExtension/src/extension.ts:64 | The escaped length is the input length plus the number of backslashes, backquotes and dollar signs. |
| WebviewEditor.TemplateRead | VSCodeExtension/src/extension.ts:64 | How a template literal body reads: the three escapes give their character, CR LF and a lone CR give LF, and a bare backquote, a `${` or any other escape is outside what it reads. |
| WebviewEditor.EscapeRoundTrip | VSCodeExtension/src/extension.ts:64 | Reading the escaped text as a template literal body gives back the input, with CR LF and lone CR as LF. Nothing ends the literal or opens a substitution. |
| WebviewEditor.PageValue | VSCodeExtension/src/extension.ts:268 | As written, the textarea's first value is a backquote, the escaped text and a backquote. |
| WebviewEditor.PageValueIsNotText | VSCodeExtension/src/extension.ts:64-66 | As written, the textarea's first value is longer than the text by the two backquotes and one backslash per special character, so it never equals the text. |
| WebviewEditor.PageValueExample | VSCodeExtension/src/extension.ts:268 | For the text `a` the textarea starts with `` `a` ``. |
| WebviewEditor.IntendedPageValue | VSCodeExtension/src/extension.ts:64 | Reading the escaped text back as a template literal body, as the escaper was written for, gives the text with its line endings as LF, and exactly the text when it holds no CR. |
| WebviewEditor.LastUpdate | VSCodeExtension/src/extension.ts:39-47 | None exactly when no update was posted. Otherwise the text of a posted update. |
| WebviewEditor.Received | VSCodeExtension/src/extension.ts:39-47 | What the extension holds for the edited range: the text of the last update, or the original text when none was posted. |
| WebviewEditor.LastUpdateIsLast | VSCodeExtension/src/extension.ts:39-47 | The update found is the last one: no update was posted after it. |
| WebviewEditor.WebviewScript.constructor | VSCodeExtension/src/extension.ts:268-299 | As written, the textarea starts with a backquote, the escaped text and a backquote. `lastSavedContent` equals that value and nothing is posted. |
| WebviewEditor.WebviewScript.Intended | VSCodeExtension/src/extension.ts:299 | With the intended first value, the textarea and `lastSavedContent` start as the text with LF line endings, and nothing is posted. |
| WebviewEditor.WebviewScript.Apply | VSCodeExtension/src/extension.ts:336-383 | The textarea takes the edit's value and selection. Nothing is posted. |
| WebviewEditor.WebviewScript.Input | VSCodeExtension/src/extension.ts:328-332 | Typing changes only the textarea. It posts nothing. |
| WebviewEditor.WebviewScript.KeyTab | VSCodeExtension/src/extension.ts:336-342 | The selection becomes four spaces, with the caret at start + 4. |
| WebviewEditor.WebviewScript.KeyEnter | VSCodeExtension/src/extension.ts:345-351 | The selection becomes two spaces and a newline, with the caret at start + 3. |
| WebviewEditor.WebviewScript.ApplyFormat | VSCodeExtension/src/extension.ts:355-371 | `Wrap` with the lowercase placeholder "text". |
| WebviewEditor.WebviewScript.InsertAtLineStart | VSCodeExtension/src/extension.ts:374-383 | `PrefixLine` at the caret's line. |
| WebviewEditor.WebviewScript.AutoSave | VSCodeExtension/src/extension.ts:314-325 | It posts one update with the text exactly when the page is dirty, and the page is clean afterwards. `lastSavedContent` stays the last text sent. |
| WebviewEditor.WebviewScript.SaveChanges | VSCodeExtension/src/extension.ts:385-392 | It always posts the text and records it as saved. |
| WebviewEditor.WebviewScript.CloseEditor | VSCodeExtension/src/extension.ts:394-400 | It posts an update only when dirty, then always posts close. If it was dirty, the last update is the final text. Otherwise the last update is the final text, or nothing was posted and the textarea still holds its first value. |
| WebviewEditor.CloseDelivers | VSCodeExtension/src/extension.ts:394-400 | When the page started with the document text, closing leaves the extension holding the textarea's final text. |
| WebviewEditor.SaveUneditedAsWritten | VSCodeExtension/src/extension.ts:268-299 | As written, opening a page and saving without an edit replaces the text with the backquoted, escaped text. |
| WebviewEditor.SaveUneditedIntended | VSCodeExtension/src/extension.ts:385-392 | With the intended first value, the same steps give back the text with LF line endings, and exactly the text when it holds no CR. |
| WebviewEditor.AutoSaveTwice | VSCodeExtension/src/extension.ts:314-325 | Two auto-saves with no edit in between post exactly one update of the text when the page was dirty, and nothing otherwise. The second one posts nothing. |
| MainWindow.Blocks | MainWindow.xaml.cs:217 | Block i is "<!-- " + title + " -->\n" + content of section i. |
| MainWindow.Combine | MainWindow.xaml.cs:217 | The blocks joined by the "---" separator. |
| MainWindow.LooksLikeJson | MainWindow.xaml.cs:330 | The clipboard text, without leading white space, starts with `{` or `[`. |
| MainWindow.NormalizeEscapes | MainWindow.xaml.cs:286-288 | Literal backslash-n-backslash-n, then backslash-n, then backslash-t are replaced, in that order. |
| MainWindow.AppendImport | MainWindow.xaml.cs:322 | The current text, an empty line, the imported text. |
| MainWindow.ToLf | MainWindow.xaml.cs:384 | Every CR LF pair becomes LF. |
| MainWindow.CombineShape | MainWindow.xaml.cs:214-218 | The combined text starts with the first block and ends with the last. Its length is the total of the blocks plus n - 1 separators. |
| MainWindow.LoadDispatch | MainWindow.xaml.cs:206-242 | More than one section goes by the navigator: cancel loads nothing, -2 combines, a valid index loads that section, too large an index is an error, any other negative index loads nothing. One section is loaded directly. None falls back to extracting the whole file. |
| MainWindow.LoadedTextOrigin | MainWindow.xaml.cs:206-242 | Whatever is loaded is a section's content, the combined text, or the whole file's extraction. No sections give the extraction and one section gives its content. With more, cancel and a negative index other than -2 load nothing, -2 gives the combined text, a valid index gives that section, and too large an index is an error. |
| MainWindow.NormalizeClipboard | MainWindow.xaml.cs:280-290 | Normalization runs only for clipboard text that does not look like JSON, and only when the content holds a literal backslash-n. Otherwise the content is untouched. |
| MainWindow.LineCount | MainWindow.xaml.cs:329 | The line count is at least 1, even for the empty text. |
| MainWindow.ImportLabel | MainWindow.xaml.cs:330-332 | The label is "JSON" exactly when the clipboard text looks like JSON. Otherwise it is the "converted" label exactly when the clipboard text holds a literal backslash-n, and "Text" when it does not. |
| MainWindow.ImportFromClipboard | MainWindow.xaml.cs:252-343 | Blank clipboard text, a blank result or a cancelled question import nothing. Otherwise the text is the normalized content, or the current text, an empty line and that content when the reply is No. The label and line count describe it. |
| MainWindow.DoublePassRedundant | MainWindow.xaml.cs:286-287 | The backslash-n-twice pass followed by the backslash-n pass equals the backslash-n pass alone. |
| MainWindow.NormalizeIsTwoPasses | MainWindow.xaml.cs:286-288 | The normalization turns every literal backslash-n into a newline, then every literal backslash-t into a tab. |
| MainWindow.NormalizeLeavesNoEscapes | MainWindow.xaml.cs:286-288 | No literal backslash-n or backslash-t is left. |
| MainWindow.NormalizeIdempotent | MainWindow.xaml.cs:286-288 | Normalizing twice is normalizing once. |
| MainWindow.NormalizeClipboardIdempotent | MainWindow.xaml.cs:280-290 | Running the guarded step again changes nothing. |
| MainWindow.AppendLineCount | MainWindow.xaml.cs:322-329 | Appending adds the two line counts plus one. |
| MainWindow.AppendKeepsBoth | MainWindow.xaml.cs:322 | The current text, then "\n\n", then the import. |
| MainWindow.AppendNotBlank | MainWindow.xaml.cs:322 | Appending to a non-blank import is not blank. |
| MainWindow.ToLfOnlyDropsCr | MainWindow.xaml.cs:384 | The CRLF step removes carriage returns and nothing else. |
| MainWindow.ToLfKeepsLineCount | MainWindow.xaml.cs:384-397 | The exported line count equals the editor's. |
| MainWindow.ToLfExamples | MainWindow.xaml.cs:384 | A lone "\r" survives, and "\r\r\n" becomes "\r\n". |
| ImageMarkdown.FileName | Services/ImageService.cs:17 | The file name is the suffix of the path after its last separator, and it holds no separator. |
| ImageMarkdown.AttributeBlock | Services/ImageService.cs:19-25 | "{ " + the given parts joined by spaces + " }", or nothing when neither option is given. |
| ImageMarkdown.GenerateMarkdownImage | Services/ImageService.cs:15-27 | The image link followed by the attribute block, with "Image" as the default alt text and no options by default. |
| ImageMarkdown.AttributeBlockCases | Services/ImageService.cs:19-25 | No block when both options are null. Otherwise "{ " + the present parts, align before width and separated by one space, + " }". |
| ImageMarkdown.SnippetShape | Services/ImageService.cs:17-27 | The snippet starts with "![alt](assets/images/name)". Nothing follows when there are no options, and a brace-delimited block follows otherwise. |
| ImageMarkdown.DirectoryIgnored | Services/ImageService.cs:17-18 | Paths with the same file name give the same snippet. |
| ImageMarkdown.DefaultSnippet | Services/ImageService.cs:15 | The alt text defaults to "Image" and there is no block. |
| ImageMarkdown.InsertImageExample | Services/ImageService.cs:15-27 | For a file `cat.png` in any directory, with align "right" and width "40%", the snippet is `![Image](assets/images/cat.png){ align=right width=40% }`. |
| ImageMarkdown.EmptyAlignKept | Services/ImageService.cs:22-23 | An empty but non-null align still emits "align=". |

## Left out

- JSON text parsing, and which texts are JSON: the extractor receives the parsed tree.
- `ExportAsJsonString` (Services/JsonService.cs:100-109): the escaping table of `JavaScriptEncoder.Default` is not part of this model.
- Duplicate keys: the model assumes the last occurrence wins, both for typed binding and for `JsonDocument.TryGetProperty`.
- Typed binding: a property of a known name counts as compatible when it is a string or null where a string is expected, an array of such or null for lists, and an object or null for records. Numbers are never coerced to strings.
- `LoadFromFile`, `LoadSectionsFromFile` and `LoadFromClipboard`: the file system and clipboard reads are not modelled. The last two are not part of this model, so their results (the sections, the extracted text) are inputs.
- `Clipboard.ContainsText`, `GetEditorText`, `SetEditorText` (its readiness delay), the message boxes and the file dialogs: replies and texts are inputs, and exceptions from them are not modelled.
- MainWindow.LooksLikeJson: `StartsWith("{")` is culture-sensitive in .NET, but the model compares the first character ordinally. Characters that a culture comparison ignores are not modelled.
- ImageMarkdown.FileName: the drive-relative form `C:name` (where `Path.GetFileName` also cuts after the colon) is not modelled. Only `\` and `/` separate.
- WebView2 hosting, `ExecuteScriptAsync`, the polling timer, `notifyChange`, `focus`, preview rendering, the status line and console logging are not modelled. They are UI, concurrency and logging.
- Services/MarkdownService.cs is not part of this model. It is HTML templates and an external Markdown renderer.
- The section navigator dialog is reduced to how it closes: cancel, -2 for "combine all", or a list index.
- The VS Code command registration and the panel lifecycle are not modelled. The timers are not modelled either: a timer firing is a call of `AutoSave`.
- WebviewEditor.Received: the extension's `editor.edit` replaces, on every update, the selection captured when the command ran. The model takes the edited range to hold the text of the last update, as if that range followed the replacements.
- WebviewEditor.PageValue: the HTML parsing of the textarea's content is not modelled. The backquotes and the escaped text are taken literally: character references and a `</textarea>` inside the text ending the element early are not modelled.
- Browser textarea behaviour: the caret moves to the end when the value changes (HTML standard, modelled by `AssignValue`). A textarea also normalizes line endings, so CR LF and a lone CR read back as LF. The model does not apply `NormalizeNewlines` to textarea values: every value it assigns keeps its CR characters.
- WpfEditor.EditorScript.SetText: for a text holding CR, the page's `editor.value` has LF line endings while `lastValue` keeps the CR. `lastValue == editor.value` then no longer holds, and the next `saveState` records an undo entry without any edit. The extractor emits CR LF (`AppendLine`), so imported JSON is the usual case. The model's `Valid` assumes `lastValue == value` and does not show this.
- WpfEditor.EditorScript.InsertText, WpfEditor.EditorScript.Commit and WebviewEditor.WebviewScript.Apply: an inserted text holding CR is kept as it is, while the page reads it back with LF and possibly shorter, so the page's selection offsets can differ from the model's.
- Lengths and offsets: a Dafny `char` is a Unicode scalar value, while JavaScript and .NET count UTF-16 code units. A character outside the Basic Multilingual Plane has length 1 here and 2 there, so selection offsets and `start + text.length` are stated in characters, not code units. Lone surrogates cannot be represented.
- The WPF script's events run one at a time, so `isUndoRedo` is always false between them. The model keeps that as part of the class invariant.

## Findings

| source | as written | input that shows it | evidently intended | confidence | as-written member | corrected member |
|---|---|---|---|---|---|---|
| VSCodeExtension/src/extension.ts:268 | The escaped text is written between two backquotes as the textarea's HTML content. HTML does not read template-literal escapes, so the textarea starts with a backquote, the text with its backslashes, backquotes and dollar signs escaped, and another backquote. The first save posts that value back as the document text. | The selected text `a`: the textarea shows `` `a` ``, and Save without any edit replaces `a` in the document with `` `a` ``. | The textarea starts with the selected text (its line endings as LF), which is what reading the escaped text as a template literal gives. | not executed; high, the HTML template is explicit | WebviewEditor.SaveUneditedAsWritten | WebviewEditor.SaveUneditedIntended |
