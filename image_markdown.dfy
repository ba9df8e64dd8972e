// The Markdown image snippet of Services/ImageService.cs: an image link
// into `assets/images/` built from the picked file's name, with an optional
// `{ align=... width=... }` attribute block. The file dialog is not modelled.

module ImageMarkdown {
  import opened Optional
  import opened StringUtil

  /** The directory separators of a Windows path. */
  predicate IsSeparator(c: char)
  {
    c == '\\' || c == '/'
  }

  /** `Path.GetFileName(path)`: what follows the last separator. */
  function FileName(path: string): (r: string)
    ensures |r| <= |path| && r == path[|path| - |r|..]
    ensures forall i :: 0 <= i < |r| ==> !IsSeparator(r[i])
    ensures |r| < |path| ==> IsSeparator(path[|path| - |r| - 1])
    decreases |path|
  {
    if path == [] then []
    else if IsSeparator(path[|path| - 1]) then []
    else FileName(path[..|path| - 1]) + [path[|path| - 1]]
  }

  /** The image link every snippet starts with. */
  function ImageLink(path: string, alt: string): string
  {
    "![" + alt + "](assets/images/" + FileName(path) + ")"
  }

  /** The attribute parts in order: `align=` first, then `width=`, each
      only when given (an empty string counts as given). */
  function Attributes(align: Option<string>, width: Option<string>): seq<string>
  {
    (if align.Some? then ["align=" + align.value] else [])
      + (if width.Some? then ["width=" + width.value] else [])
  }

  /** `{ ` + the parts joined by single spaces + ` }`, or nothing when
      neither option is given. */
  function AttributeBlock(align: Option<string>, width: Option<string>): string
  {
    if align.Some? || width.Some? then "{ " + Join(" ", Attributes(align, width)) + " }"
    else ""
  }

  /** `GenerateMarkdownImage(path, alt, align, width)`. */
  function GenerateMarkdownImage(path: string, alt: string := "Image", align: Option<string> := None, width: Option<string> := None): string
  {
    ImageLink(path, alt) + AttributeBlock(align, width)
  }

  // ---------------------------------------------------------------------

  /** The attribute block, case by case: absent when both options are,
      otherwise braces around `align=` and `width=` in that order,
      separated by one space. */
  lemma AttributeBlockCases(align: Option<string>, width: Option<string>)
    ensures align.None? && width.None? ==> AttributeBlock(align, width) == ""
    ensures align.Some? && width.None? ==> AttributeBlock(align, width) == "{ " + "align=" + align.value + " }"
    ensures align.None? && width.Some? ==> AttributeBlock(align, width) == "{ " + "width=" + width.value + " }"
    ensures align.Some? && width.Some? ==>
      AttributeBlock(align, width) == "{ " + "align=" + align.value + " " + "width=" + width.value + " }"
  {
    var a := Attributes(align, width);
    if align.Some? && width.Some? {
      var p, q := "align=" + align.value, "width=" + width.value;
      assert a == [p, q];
      assert a[..1] == [p];
      assert Join(" ", a) == p + " " + q;
    } else if align.Some? {
      assert a == ["align=" + align.value];
    } else if width.Some? {
      assert a == ["width=" + width.value];
    }
  }

  /** Only the file name of the path goes into the link, and the link is
      followed either by nothing or by one attribute block. */
  lemma SnippetShape(path: string, alt: string, align: Option<string>, width: Option<string>)
    ensures
      var md := GenerateMarkdownImage(path, alt, align, width);
      var link := ImageLink(path, alt);
      && link <= md
      && (align.None? && width.None? ==> md == link)
      && (align.Some? || width.Some? ==> md[|link|] == '{' && md[|md| - 1] == '}')
  {
    AttributeBlockCases(align, width);
    var md := GenerateMarkdownImage(path, alt, align, width);
    var link := ImageLink(path, alt);
    assert md == link + AttributeBlock(align, width);
  }

  /** Two paths with the same file name give the same snippet. */
  lemma DirectoryIgnored(dir1: string, dir2: string, name: string, alt: string, align: Option<string>, width: Option<string>)
    requires forall i :: 0 <= i < |name| ==> !IsSeparator(name[i])
    ensures GenerateMarkdownImage(dir1 + "\\" + name, alt, align, width)
      == GenerateMarkdownImage(dir2 + "/" + name, alt, align, width)
  {
    FileNameAfterSeparator(dir1, '\\', name);
    FileNameAfterSeparator(dir2, '/', name);
  }

  lemma {:induction false} FileNameAfterSeparator(dir: string, sep: char, name: string)
    requires IsSeparator(sep)
    requires forall i :: 0 <= i < |name| ==> !IsSeparator(name[i])
    ensures FileName(dir + [sep] + name) == name
    decreases |name|
  {
    var p := dir + [sep] + name;
    if name == [] {
      assert p[|p| - 1] == sep;
    } else {
      var n := |name|;
      assert p[..|p| - 1] == dir + [sep] + name[..n - 1];
      FileNameAfterSeparator(dir, sep, name[..n - 1]);
      assert p[|p| - 1] == name[n - 1];
      assert name[..n - 1] + [name[n - 1]] == name;
    }
  }

  /** The alt text defaults to "Image", and without options there is no
      attribute block. */
  lemma DefaultSnippet(path: string)
    ensures GenerateMarkdownImage(path) == ImageLink(path, "Image")
  {
  }

  lemma ExampleLink(dir: string)
    ensures ImageLink(dir + "\\cat.png", "Image") == "![Image](assets/images/cat.png)"
  {
    FileNameAfterSeparator(dir, '\\', "cat.png");
    assert dir + "\\cat.png" == dir + ['\\'] + "cat.png";
  }

  lemma ExampleBlock()
    ensures AttributeBlock(Some("right"), Some("40%")) == "{ align=right width=40% }"
  {
    AttributeBlockCases(Some("right"), Some("40%"));
  }

  /** The window's "Yes" answer: right-aligned at 40% width, whatever
      directory the picked file is in. */
  lemma InsertImageExample(dir: string)
    ensures GenerateMarkdownImage(dir + "\\cat.png", "Image", Some("right"), Some("40%"))
      == "![Image](assets/images/cat.png){ align=right width=40% }"
  {
    ExampleLink(dir);
    ExampleBlock();
  }

  /** A given but empty `align` still produces `align=`. */
  lemma EmptyAlignKept(path: string, alt: string)
    ensures GenerateMarkdownImage(path, alt, Some(""), None) == ImageLink(path, alt) + "{ align= }"
  {
    AttributeBlockCases(Some(""), None);
    assert AttributeBlock(Some(""), None) == "{ align= }";
  }
}
