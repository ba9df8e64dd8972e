// The import extractor of Services/JsonService.cs: a typed view of the
// document (Models/JsonContent.cs) assembled into Markdown, a `content`
// fallback, a "legacy" pass over the raw JSON root, and the input itself as
// the last resort. JSON text parsing is not modelled: the caller hands over
// the tree the parser would build, or says that the text is not JSON.

module JsonImport {
  import opened Optional
  import opened StringUtil

  /** `Environment.NewLine` on Windows, which `StringBuilder.AppendLine` emits. */
  const NL: string := "\r\n"

  datatype Json =
    | JNull
    | JBool(b: bool)
    | JNum(literal: string)
    | JStr(s: string)
    | JArr(items: seq<Json>)
    | JObj(members: seq<Member>)

  /** One `"key": value` pair of an object, in document order (keys may repeat). */
  datatype Member = Member(key: string, value: Json)

  /** The input as the parsers see it. */
  datatype Document = NotJson | Parsed(root: Json)

  // ---------------------------------------------------------------------
  // Models/JsonContent.cs: every property is nullable (`None` is C# null)

  datatype Section = Section(markdown: Option<string>)

  datatype MetaData = MetaData(
    title: Option<string>,
    description: Option<string>,
    keywords: Option<seq<Option<string>>>)

  datatype JsonContent = JsonContent(
    title: Option<string>,
    intro: Option<string>,
    meta: Option<MetaData>,
    sections: Option<seq<Option<Section>>>,
    content: Option<string>)

  /** A computation that either yields a value or throws (and is caught). */
  datatype Result<T> = Ok(value: T) | Thrown

  // ---------------------------------------------------------------------
  // Typed deserialization: `JsonSerializer.Deserialize<JsonContent>` with the
  // default options (property names matched case-sensitively, unknown
  // properties ignored, a repeated property assigned again so the last wins)

  /** The value of the last member named `key`. */
  function LastValue(ms: seq<Member>, key: string): (v: Option<Json>)
    ensures v.Some? ==> Member(key, v.value) in ms
    ensures v.None? ==> forall m <- ms :: m.key != key
  {
    if ms == [] then None
    else if ms[|ms| - 1].key == key then Some(ms[|ms| - 1].value)
    else LastValue(ms[..|ms| - 1], key)
  }

  /** A repeated key resolves to its last occurrence: the value found is
      that of a member with the key after which no member has the key. */
  lemma {:induction false} LastValueIsLast(ms: seq<Member>, key: string)
    requires LastValue(ms, key).Some?
    ensures exists i ::
      0 <= i < |ms| && ms[i] == Member(key, LastValue(ms, key).value) && forall j :: i < j < |ms| ==> ms[j].key != key
    decreases |ms|
  {
    var n := |ms|;
    if ms[n - 1].key == key {
      assert ms[n - 1] == Member(key, LastValue(ms, key).value);
    } else {
      var init := ms[..n - 1];
      LastValueIsLast(init, key);
      var i :| 0 <= i < |init| && init[i] == Member(key, LastValue(init, key).value)
        && forall j :: i < j < |init| ==> init[j].key != key;
      assert ms[i] == init[i];
      assert forall j :: i < j < n ==> ms[j].key != key by {
        forall j | i < j < n
          ensures ms[j].key != key
        {
          if j < n - 1 {
            assert ms[j] == init[j];
          }
        }
      }
    }
  }

  /** A JSON value that binds to a C# `string?`. */
  predicate IsStringOrNull(v: Json)
  {
    v.JStr? || v.JNull?
  }

  predicate SectionOk(v: Json)
  {
    v.JNull? || (v.JObj? && forall m <- v.members :: m.key == "markdown" ==> IsStringOrNull(m.value))
  }

  predicate SectionsOk(v: Json)
  {
    v.JNull? || (v.JArr? && forall x <- v.items :: SectionOk(x))
  }

  predicate KeywordsOk(v: Json)
  {
    v.JNull? || (v.JArr? && forall x <- v.items :: IsStringOrNull(x))
  }

  predicate MetaOk(v: Json)
  {
    || v.JNull?
    || (&& v.JObj?
        && (forall m <- v.members :: (m.key == "title" || m.key == "description") ==> IsStringOrNull(m.value))
        && (forall m <- v.members :: m.key == "keywords" ==> KeywordsOk(m.value)))
  }

  /** Whether one member of the root object binds without an exception. */
  predicate FieldOk(key: string, v: Json)
  {
    if key == "title" || key == "intro" || key == "content" then IsStringOrNull(v)
    else if key == "meta" then MetaOk(v)
    else if key == "sections" then SectionsOk(v)
    else true
  }

  /** Whether the typed view succeeds: the root is `null` or an object whose
      known members all have compatible types. */
  predicate TypedViewOk(root: Json)
  {
    root.JNull? || (root.JObj? && forall m <- root.members :: FieldOk(m.key, m.value))
  }

  function AsString(v: Json): Option<string>
    requires IsStringOrNull(v)
  {
    if v.JStr? then Some(v.s) else None
  }

  function StringProperty(ms: seq<Member>, key: string): Option<string>
    requires forall m <- ms :: m.key == key ==> IsStringOrNull(m.value)
  {
    match LastValue(ms, key)
    case None => None
    case Some(v) => AsString(v)
  }

  function BindSection(v: Json): Option<Section>
    requires SectionOk(v)
  {
    if v.JNull? then None else Some(Section(StringProperty(v.members, "markdown")))
  }

  function BindSections(v: Json): Option<seq<Option<Section>>>
    requires SectionsOk(v)
  {
    if v.JNull? then None
    else Some(seq(|v.items|, i requires 0 <= i < |v.items| => BindSection(v.items[i])))
  }

  function BindKeywords(v: Json): Option<seq<Option<string>>>
    requires KeywordsOk(v)
  {
    if v.JNull? then None
    else Some(seq(|v.items|, i requires 0 <= i < |v.items| => AsString(v.items[i])))
  }

  function BindMeta(v: Json): Option<MetaData>
    requires MetaOk(v)
  {
    if v.JNull? then None
    else
      var keywords := match LastValue(v.members, "keywords")
        case None => None
        case Some(k) => BindKeywords(k);
      Some(MetaData(StringProperty(v.members, "title"), StringProperty(v.members, "description"), keywords))
  }

  /** `JsonSerializer.Deserialize<JsonContent>(jsonString)` on a parsed tree:
      `Ok(None)` for the literal `null`, `Thrown` for a `JsonException`. */
  function Deserialize(root: Json): (r: Result<Option<JsonContent>>)
    ensures r.Ok? <==> TypedViewOk(root)
    ensures r == Ok(None) <==> root.JNull?
  {
    if !TypedViewOk(root) then Thrown
    else if root.JNull? then Ok(None)
    else
      var ms := root.members;
      var meta := match LastValue(ms, "meta")
        case None => None
        case Some(v) => BindMeta(v);
      var sections := match LastValue(ms, "sections")
        case None => None
        case Some(v) => BindSections(v);
      Ok(Some(JsonContent(
        StringProperty(ms, "title"), StringProperty(ms, "intro"), meta, sections,
        StringProperty(ms, "content"))))
  }

  // ---------------------------------------------------------------------
  // Markdown assembly of the typed view

  /** `!string.IsNullOrEmpty(s)`. */
  predicate NonEmpty(s: Option<string>)
  {
    s.Some? && s.value != []
  }

  function TitleBlock(c: JsonContent): string
  {
    if NonEmpty(c.title) then "# " + c.title.value + NL + NL else []
  }

  function IntroBlock(c: JsonContent): string
  {
    if NonEmpty(c.intro) then c.intro.value + NL + NL else []
  }

  predicate NoNullSection(secs: seq<Option<Section>>)
  {
    forall s <- secs :: s.Some?
  }

  function SectionLine(sec: Section): string
  {
    if NonEmpty(sec.markdown) then sec.markdown.value + NL else []
  }

  /** The lines that the loop over the sections appends, in array order. */
  function SectionLines(secs: seq<Option<Section>>): string
    requires NoNullSection(secs)
  {
    if secs == [] then []
    else SectionLines(secs[..|secs| - 1]) + SectionLine(secs[|secs| - 1].value)
  }

  /** The sections loop: it throws (`section.Markdown` on null) as soon as it
      meets a null element. */
  function SectionsBlock(c: JsonContent): Result<string>
  {
    if c.sections.None? then Ok([])
    else if !NoNullSection(c.sections.value) then Thrown
    else Ok(SectionLines(c.sections.value))
  }

  /** The body of the `try` block once deserialization produced an object. */
  function Assemble(jsonString: string, c: JsonContent): Result<string>
  {
    match SectionsBlock(c)
    case Thrown => Thrown
    case Ok(lines) =>
      var sb := TitleBlock(c) + IntroBlock(c) + lines;
      if sb == [] && NonEmpty(c.content) then Ok(c.content.value)
      else if sb != [] then Ok(sb)
      else Ok(jsonString)
  }

  /** What `TryGetProperty("content")` then `GetString() ?? ""` yield for
      the last `content` member: its string, "" for null, and the input when
      the member is missing or `GetString` throws on it (the inner `catch`
      swallows that). */
  function LegacyContent(jsonString: string, v: Option<Json>): string
  {
    if v.Some? && v.value.JStr? then v.value.s
    else if v.Some? && v.value.JNull? then []
    else jsonString
  }

  /** The `catch` block: the raw root through `JsonDocument`. */
  function Legacy(jsonString: string, root: Json): string
  {
    match root
    case JStr(s) => s
    case JObj(ms) => LegacyContent(jsonString, LastValue(ms, "content"))
    case _ => jsonString
  }

  /** What `ExtractContent` returns. */
  function Extracted(jsonString: string, doc: Document): string
  {
    match doc
    case NotJson => jsonString
    case Parsed(root) =>
      match Deserialize(root)
      case Thrown => Legacy(jsonString, root)
      case Ok(None) => jsonString
      case Ok(Some(c)) =>
        match Assemble(jsonString, c)
        case Thrown => Legacy(jsonString, root)
        case Ok(s) => s
  }

  /** `JsonService.ExtractContent`: the typed branch, then the legacy pass
      when it throws. There is no precondition: every input yields a string. */
  method ExtractContent(jsonString: string, doc: Document) returns (r: string)
    ensures r == Extracted(jsonString, doc)
  {
    if doc.NotJson? {
      return jsonString;
    }
    var typed := Deserialize(doc.root);
    if typed.Ok? {
      if typed.value.None? {
        return jsonString;
      }
      var assembled := AssembleTyped(jsonString, typed.value.value);
      if assembled.Ok? {
        return assembled.value;
      }
    }
    r := Legacy(jsonString, doc.root);
  }

  /** The typed branch: title and intro blocks, the sections loop appending to
      the string builder, then the `content` and input fallbacks. */
  method AssembleTyped(jsonString: string, content: JsonContent) returns (res: Result<string>)
    ensures res == Assemble(jsonString, content)
  {
    var sb: string := [];
    if NonEmpty(content.title) {
      sb := sb + "# " + content.title.value + NL;
      sb := sb + NL;
    }
    assert sb == TitleBlock(content);
    if NonEmpty(content.intro) {
      sb := sb + content.intro.value + NL;
      sb := sb + NL;
    }
    assert sb == TitleBlock(content) + IntroBlock(content);
    if content.sections.Some? && |content.sections.value| > 0 {
      var lines := AppendSections(content.sections.value);
      if lines.Thrown? {
        return Thrown;
      }
      sb := sb + lines.value;
    }
    assert content.sections.Some? && |content.sections.value| == 0 ==> SectionLines(content.sections.value) == [];
    assert SectionsBlock(content).Ok? && sb == TitleBlock(content) + IntroBlock(content) + SectionsBlock(content).value;
    if |sb| == 0 && NonEmpty(content.content) {
      return Ok(content.content.value);
    }
    return Ok(if |sb| > 0 then sb else jsonString);
  }

  /** The `foreach` over the sections: each non-empty markdown is appended
      with a line break; a null element throws. */
  method AppendSections(secs: seq<Option<Section>>) returns (res: Result<string>)
    ensures res.Ok? <==> NoNullSection(secs)
    ensures res.Ok? ==> res.value == SectionLines(secs)
  {
    var sb: string := [];
    var i := 0;
    while i < |secs|
      invariant 0 <= i <= |secs|
      invariant NoNullSection(secs[..i])
      invariant sb == SectionLines(secs[..i])
    {
      if secs[i].None? {
        assert secs[i] in secs;
        return Thrown;
      }
      assert secs[..i + 1][..i] == secs[..i];
      var md := secs[i].value.markdown;
      if NonEmpty(md) {
        sb := sb + md.value + NL;
      }
      i := i + 1;
    }
    assert secs[..i] == secs;
    return Ok(sb);
  }

  // ---------------------------------------------------------------------
  // Properties of the extractor

  /** An earlier prefix of the sections contributes a prefix of the lines. */
  lemma {:induction false} SectionLinesPrefix(secs: seq<Option<Section>>, k: nat)
    requires NoNullSection(secs) && k <= |secs|
    ensures NoNullSection(secs[..k])
    ensures SectionLines(secs[..k]) <= SectionLines(secs)
    decreases |secs| - k
  {
    if k < |secs| {
      SectionLinesPrefix(secs, k + 1);
      assert secs[..k + 1][..k] == secs[..k];
    } else {
      assert secs[..k] == secs;
    }
  }

  /** Sections contribute nothing exactly when no section has markdown. */
  lemma {:induction false} SectionLinesEmptyIff(secs: seq<Option<Section>>)
    requires NoNullSection(secs)
    ensures SectionLines(secs) == [] <==> forall s <- secs :: !NonEmpty(s.value.markdown)
    decreases |secs|
  {
    if secs != [] {
      var init := secs[..|secs| - 1];
      assert NoNullSection(init);
      SectionLinesEmptyIff(init);
      assert secs == init + [secs[|secs| - 1]];
    }
  }

  /** With a non-empty title (and no null section), the result opens with the
      heading line and a blank line. */
  lemma ExtractTitleFirst(jsonString: string, root: Json, c: JsonContent)
    requires Deserialize(root) == Ok(Some(c))
    requires NonEmpty(c.title) && SectionsBlock(c).Ok?
    ensures "# " + c.title.value + NL + NL <= Extracted(jsonString, Parsed(root))
  {
  }

  /** Once the typed view produced `c` and assembly did not throw, the result
      is the assembled text. */
  lemma ExtractedIsAssembled(jsonString: string, root: Json, c: JsonContent)
    requires Deserialize(root) == Ok(Some(c)) && Assemble(jsonString, c).Ok?
    ensures Extracted(jsonString, Parsed(root)) == Assemble(jsonString, c).value
  {
  }

  /** Slices of a prefix are slices of the whole. */
  lemma PrefixSlice(a: string, b: string, lo: nat, hi: nat)
    requires a <= b && lo <= hi <= |a|
    ensures hi <= |b| && b[lo..hi] == a[lo..hi]
  {
    assert b[..|a|] == a;
  }

  /** Slices of the second part of a concatenation, shifted by the first. */
  lemma ConcatSlice(a: string, b: string, lo: nat, hi: nat)
    requires lo <= hi <= |b|
    ensures (a + b)[|a| + lo..|a| + hi] == b[lo..hi]
  {
    var x := (a + b)[|a| + lo..|a| + hi];
    assert forall j :: 0 <= j < hi - lo ==> x[j] == b[lo..hi][j];
  }

  /** Within the section lines, section i's line starts where the lines of
      the sections before it end. */
  lemma SectionLineAt(secs: seq<Option<Section>>, i: nat)
    requires NoNullSection(secs) && i < |secs|
    ensures NoNullSection(secs[..i])
    ensures
      var k := |SectionLines(secs[..i])|;
      var line := SectionLine(secs[i].value);
      k + |line| <= |SectionLines(secs)| && SectionLines(secs)[k..k + |line|] == line
  {
    SectionLinesStep(secs, i);
    SectionLinesPrefix(secs, i + 1);
    var x := SectionLines(secs[..i]);
    var line := SectionLine(secs[i].value);
    ConcatSlice(x, line, 0, |line|);
    assert line[0..|line|] == line;
    PrefixSlice(x + line, SectionLines(secs), |x|, |x| + |line|);
  }

  /** One more section appends its line. */
  lemma SectionLinesStep(secs: seq<Option<Section>>, i: nat)
    requires NoNullSection(secs) && i < |secs|
    ensures NoNullSection(secs[..i]) && NoNullSection(secs[..i + 1])
    ensures SectionLines(secs[..i + 1]) == SectionLines(secs[..i]) + SectionLine(secs[i].value)
  {
    assert secs[..i + 1][..i] == secs[..i];
  }

  /** Assembly that produced some text returns exactly that text. */
  lemma AssembleNonEmpty(jsonString: string, c: JsonContent)
    requires SectionsBlock(c).Ok? && TitleBlock(c) + IntroBlock(c) + SectionsBlock(c).value != []
    ensures Assemble(jsonString, c) == Ok(TitleBlock(c) + IntroBlock(c) + SectionsBlock(c).value)
  {
  }

  /** Section i's markdown, when non-empty, sits right after the title block,
      the intro block and the lines of the sections before it. */
  lemma AssembledSectionPlacement(jsonString: string, c: JsonContent, i: nat)
    requires c.sections.Some? && NoNullSection(c.sections.value)
    requires i < |c.sections.value| && NonEmpty(c.sections.value[i].value.markdown)
    ensures NoNullSection(c.sections.value[..i])
    ensures Assemble(jsonString, c).Ok?
    ensures
      var r := Assemble(jsonString, c).value;
      var md := c.sections.value[i].value.markdown.value;
      var at := |TitleBlock(c)| + |IntroBlock(c)| + |SectionLines(c.sections.value[..i])|;
      at + |md| + |NL| <= |r| && r[at..at + |md| + |NL|] == md + NL
  {
    var secs := c.sections.value;
    var lines := SectionLines(secs);
    var k := |SectionLines(secs[..i])|;
    var line := SectionLine(secs[i].value);
    SectionLineAt(secs, i);
    assert line == secs[i].value.markdown.value + NL;
    AssembleWithSections(jsonString, c);
    ConcatSlice(TitleBlock(c) + IntroBlock(c), lines, k, k + |line|);
  }

  /** With sections that produce some lines, assembly yields the title
      block, the intro block and those lines. */
  lemma AssembleWithSections(jsonString: string, c: JsonContent)
    requires c.sections.Some? && NoNullSection(c.sections.value)
    requires SectionLines(c.sections.value) != []
    ensures Assemble(jsonString, c) == Ok(TitleBlock(c) + IntroBlock(c) + SectionLines(c.sections.value))
  {
    assert SectionsBlock(c) == Ok(SectionLines(c.sections.value));
  }

  /** The same placement stated for the extractor's result. */
  lemma ExtractSectionPlacement(jsonString: string, root: Json, c: JsonContent, i: nat)
    requires Deserialize(root) == Ok(Some(c))
    requires c.sections.Some? && NoNullSection(c.sections.value)
    requires i < |c.sections.value| && NonEmpty(c.sections.value[i].value.markdown)
    ensures NoNullSection(c.sections.value[..i])
    ensures
      var r := Extracted(jsonString, Parsed(root));
      var md := c.sections.value[i].value.markdown.value;
      var at := |TitleBlock(c)| + |IntroBlock(c)| + |SectionLines(c.sections.value[..i])|;
      at + |md| + |NL| <= |r| && r[at..at + |md| + |NL|] == md + NL
  {
    AssembledSectionPlacement(jsonString, c, i);
    ExtractedIsAssembled(jsonString, root, c);
  }

  /** When nothing was assembled and `content` is non-empty, `content` comes
      back verbatim (no escape normalization). */
  lemma ExtractContentFallback(jsonString: string, root: Json, c: JsonContent)
    requires Deserialize(root) == Ok(Some(c))
    requires !NonEmpty(c.title) && !NonEmpty(c.intro)
    requires c.sections.Some? ==> forall s <- c.sections.value :: s.Some? && !NonEmpty(s.value.markdown)
    requires NonEmpty(c.content)
    ensures Extracted(jsonString, Parsed(root)) == c.content.value
  {
    if c.sections.Some? {
      SectionLinesEmptyIff(c.sections.value);
    }
  }

  /** The input is returned unchanged when it is not JSON, when it is the
      literal `null`, or when the typed view yields nothing at all. */
  lemma ExtractReturnsInput(jsonString: string, doc: Document)
    requires
      || doc.NotJson?
      || (doc.Parsed? && doc.root.JNull?)
      || (&& doc.Parsed?
          && Deserialize(doc.root).Ok? && Deserialize(doc.root).value.Some?
          && var c := Deserialize(doc.root).value.value;
          && !NonEmpty(c.title) && !NonEmpty(c.intro) && !NonEmpty(c.content)
          && (c.sections.Some? ==> forall s <- c.sections.value :: s.Some? && !NonEmpty(s.value.markdown)))
    ensures Extracted(jsonString, doc) == jsonString
  {
    if doc.Parsed? && Deserialize(doc.root).Ok? && Deserialize(doc.root).value.Some? {
      var c := Deserialize(doc.root).value.value;
      if c.sections.Some? {
        SectionLinesEmptyIff(c.sections.value);
      }
    }
  }

  /** A typed view that fails (a type mismatch, a root that is neither an
      object nor null) or a null element in `sections` leads to the legacy
      pass: a root string yields its value, a root object's last `content`
      member yields its string or "" for null, anything else the input. */
  lemma ExtractFallsBackToLegacy(jsonString: string, root: Json)
    requires
      || !TypedViewOk(root)
      || (&& root.JObj?
          && Deserialize(root).Ok? && Deserialize(root).value.Some?
          && var c := Deserialize(root).value.value;
          && c.sections.Some? && !NoNullSection(c.sections.value))
    ensures root.JStr? ==> Extracted(jsonString, Parsed(root)) == root.s
    ensures root.JObj? ==>
      Extracted(jsonString, Parsed(root)) ==
        match LastValue(root.members, "content")
        case Some(JStr(s)) => s
        case Some(JNull) => ""
        case _ => jsonString
    ensures !root.JStr? && !root.JObj? ==> Extracted(jsonString, Parsed(root)) == jsonString
  {
  }

  /** A null element anywhere in `sections` sends the document down the
      legacy path, although the typed view itself succeeded. */
  lemma NullSectionTakesLegacyPath(jsonString: string, ms: seq<Member>, before: seq<Json>, after: seq<Json>)
    requires TypedViewOk(JObj(ms))
    requires LastValue(ms, "sections") == Some(JArr(before + [JNull] + after))
    ensures Extracted(jsonString, Parsed(JObj(ms))) == Legacy(jsonString, JObj(ms))
  {
    var items := before + [JNull] + after;
    var c := Deserialize(JObj(ms)).value.value;
    assert c.sections.value[|before|] == BindSection(items[|before|]) == None;
  }

  /** The root members without any `meta` member. */
  function WithoutMeta(ms: seq<Member>): (r: seq<Member>)
    ensures forall m <- r :: m in ms && m.key != "meta"
  {
    if ms == [] then []
    else if ms[|ms| - 1].key == "meta" then WithoutMeta(ms[..|ms| - 1])
    else WithoutMeta(ms[..|ms| - 1]) + [ms[|ms| - 1]]
  }

  lemma {:induction false} LastValueWithoutMeta(ms: seq<Member>, key: string)
    requires key != "meta"
    ensures LastValue(WithoutMeta(ms), key) == LastValue(ms, key)
    decreases |ms|
  {
    if ms != [] {
      var init := ms[..|ms| - 1];
      LastValueWithoutMeta(init, key);
      if ms[|ms| - 1].key != "meta" {
        var r := WithoutMeta(init) + [ms[|ms| - 1]];
        assert r[..|r| - 1] == WithoutMeta(init);
      }
    }
  }

  lemma {:induction false} WithoutMetaKeepsOthers(ms: seq<Member>)
    ensures forall m <- ms :: m.key != "meta" ==> m in WithoutMeta(ms)
    decreases |ms|
  {
    if ms != [] {
      WithoutMetaKeepsOthers(ms[..|ms| - 1]);
      assert ms == ms[..|ms| - 1] + [ms[|ms| - 1]];
    }
  }

  /** Without `meta` members the typed view binds the same document, with
      `meta` left null. */
  lemma DeserializeWithoutMeta(ms: seq<Member>)
    requires forall m <- ms :: m.key == "meta" ==> MetaOk(m.value)
    ensures TypedViewOk(JObj(ms)) <==> TypedViewOk(JObj(WithoutMeta(ms)))
    ensures Deserialize(JObj(ms)).Ok? ==>
      Deserialize(JObj(WithoutMeta(ms))) == Ok(Some(Deserialize(JObj(ms)).value.value.(meta := None)))
  {
    var ns := WithoutMeta(ms);
    WithoutMetaKeepsOthers(ms);
    LastValueWithoutMeta(ms, "title");
    LastValueWithoutMeta(ms, "intro");
    LastValueWithoutMeta(ms, "sections");
    LastValueWithoutMeta(ms, "content");
    assert LastValue(ns, "meta") == None;
  }

  lemma LegacyWithoutMeta(jsonString: string, ms: seq<Member>)
    ensures Legacy(jsonString, JObj(ms)) == Legacy(jsonString, JObj(WithoutMeta(ms)))
  {
    LastValueWithoutMeta(ms, "content");
  }

  /** Assembly never reads `meta`. */
  lemma AssembleIgnoresMeta(jsonString: string, c: JsonContent, meta: Option<MetaData>)
    ensures Assemble(jsonString, c) == Assemble(jsonString, c.(meta := meta))
  {
  }

  /** The `meta` member never influences the result: dropping every
      (well-typed) `meta` member from the root object changes nothing. */
  lemma MetaNeverMatters(jsonString: string, ms: seq<Member>)
    requires forall m <- ms :: m.key == "meta" ==> MetaOk(m.value)
    ensures Extracted(jsonString, Parsed(JObj(ms))) == Extracted(jsonString, Parsed(JObj(WithoutMeta(ms))))
  {
    LegacyWithoutMeta(jsonString, ms);
    DeserializeWithoutMeta(ms);
    if Deserialize(JObj(ms)).Ok? {
      var c := Deserialize(JObj(ms)).value.value;
      AssembleIgnoresMeta(jsonString, c, None);
    }
  }

  /** The documented example `{"title":"T","intro":"I"}`. */
  lemma TitleIntroExample(jsonString: string)
    ensures
      Extracted(jsonString, Parsed(JObj([Member("title", JStr("T")), Member("intro", JStr("I"))])))
      == "# T" + NL + NL + "I" + NL + NL
  {
  }

  /** `{"content":"raw \\n text"}` yields the value with its literal backslash-n
      intact: the content fallback does not normalize escapes. */
  lemma ContentVerbatimExample(jsonString: string)
    ensures Extracted(jsonString, Parsed(JObj([Member("content", JStr("raw \\n text"))]))) == "raw \\n text"
  {
  }
}
