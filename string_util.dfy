// String primitives of the .NET and JavaScript runtimes that the editor relies on,
// stated over sequences of characters (`string` is `seq<char>`, and a `char`
// is a Unicode scalar value).

module StringUtil {

  /** `s.Replace(pat, rep)` in .NET and `s.replace(/pat/g, rep)` in JavaScript:
      occurrences are found left to right and do not overlap. */
  function Replace(s: string, pat: string, rep: string): string
    requires |pat| > 0
    decreases |s|
  {
    if s == [] then []
    else if pat <= s then rep + Replace(s[|pat|..], pat, rep)
    else [s[0]] + Replace(s[1..], pat, rep)
  }

  /** Ordinal `s.Contains(pat)`. */
  predicate Contains(s: string, pat: string)
    decreases |s|
  {
    pat <= s || (s != [] && Contains(s[1..], pat))
  }

  /** Number of occurrences of the character `c` in `s`. */
  function Count(s: string, c: char): nat
    decreases |s|
  {
    if s == [] then 0 else (if s[0] == c then 1 else 0) + Count(s[1..], c)
  }

  /** `s.Split(c).Length`: one more piece than there are separators. */
  function SplitLength(s: string, c: char): (n: nat)
    ensures n >= 1
  {
    Count(s, c) + 1
  }

  /** .NET `char.IsWhiteSpace`: the space, line and paragraph separators of
      Unicode plus U+0009..U+000D and U+0085. */
  predicate IsWhiteSpace(c: char)
  {
    || c == ' ' || ('\t' <= c <= '\r') || c == '\U{0085}' || c == '\U{00A0}'
    || c == '\U{1680}' || ('\U{2000}' <= c <= '\U{200A}') || c == '\U{2028}'
    || c == '\U{2029}' || c == '\U{202F}' || c == '\U{205F}' || c == '\U{3000}'
  }

  /** `s.TrimStart()`. */
  function TrimStart(s: string): (r: string)
    ensures |r| <= |s| && r == s[|s| - |r|..]
    ensures r == [] || !IsWhiteSpace(r[0])
    ensures forall i :: 0 <= i < |s| - |r| ==> IsWhiteSpace(s[i])
    decreases |s|
  {
    if s != [] && IsWhiteSpace(s[0]) then TrimStart(s[1..]) else s
  }

  /** `string.IsNullOrWhiteSpace(s)` for a non-null `s`. */
  predicate IsBlank(s: string)
  {
    forall i :: 0 <= i < |s| ==> IsWhiteSpace(s[i])
  }

  /** `s.StartsWith(c)` for a one-character string, compared ordinally. */
  predicate StartsWithChar(s: string, c: char)
  {
    |s| > 0 && s[0] == c
  }

  /** JavaScript `s.lastIndexOf(c, from)` for a one-character search string:
      `from` is clamped to `[0, |s|]`, and the result is the largest index
      `k <= from` with `s[k] == c`, or -1. */
  function LastIndexOf(s: string, c: char, from: int): (k: int)
    ensures -1 <= k < |s|
    ensures k >= 0 ==> k <= from || k == 0
    ensures k >= 0 ==> s[k] == c
    ensures forall j :: k < j < |s| && j <= from ==> s[j] != c
    ensures from < 0 ==> k == (if |s| > 0 && s[0] == c then 0 else -1)
  {
    var start := if from < 0 then 0 else if from >= |s| then |s| - 1 else from;
    if |s| == 0 then -1 else LastIndexAtOrBefore(s, c, start)
  }

  function LastIndexAtOrBefore(s: string, c: char, i: int): (k: int)
    requires -1 <= i < |s|
    ensures -1 <= k <= i
    ensures k >= 0 ==> s[k] == c
    ensures forall j :: k < j <= i ==> s[j] != c
    decreases i + 1
  {
    if i < 0 then -1 else if s[i] == c then i else LastIndexAtOrBefore(s, c, i - 1)
  }

  /** `string.Join(sep, parts)`. */
  function Join(sep: string, parts: seq<string>): string
  {
    if |parts| == 0 then []
    else if |parts| == 1 then parts[0]
    else Join(sep, parts[..|parts| - 1]) + sep + parts[|parts| - 1]
  }

  /** Line terminator normalization, as a JavaScript template literal or
      a textarea value applies it: CR LF and a lone CR each become LF. */
  function NormalizeNewlines(s: string): (r: string)
    ensures forall i :: 0 <= i < |r| ==> r[i] != '\r'
    ensures (forall i :: 0 <= i < |s| ==> s[i] != '\r') ==> r == s
    decreases |s|
  {
    if s == [] then []
    else if s[0] == '\r' then
      if |s| >= 2 && s[1] == '\n' then "\n" + NormalizeNewlines(s[2..])
      else "\n" + NormalizeNewlines(s[1..])
    else [s[0]] + NormalizeNewlines(s[1..])
  }

  /** Total length of the parts. */
  function TotalLength(parts: seq<string>): nat
  {
    if parts == [] then 0 else TotalLength(parts[..|parts| - 1]) + |parts[|parts| - 1]|
  }

  // ---------------------------------------------------------------------
  // Facts about the primitives

  lemma {:induction false} CountConcat(a: string, b: string, c: char)
    ensures Count(a + b, c) == Count(a, c) + Count(b, c)
    decreases |a|
  {
    if a == [] {
      assert a + b == b;
    } else {
      assert (a + b)[1..] == a[1..] + b;
      CountConcat(a[1..], b, c);
    }
  }

  /** Joining n parts puts exactly n - 1 separators between them. */
  lemma {:induction false} JoinLength(sep: string, parts: seq<string>)
    requires |parts| > 0
    ensures |Join(sep, parts)| == TotalLength(parts) + (|parts| - 1) * |sep|
    decreases |parts|
  {
    if |parts| > 1 {
      JoinLength(sep, parts[..|parts| - 1]);
    } else {
      assert parts[..0] == [];
    }
  }

  /** One step of `Replace` when the pattern starts the text. */
  lemma ReplaceAtMatch(pat: string, t: string, rep: string)
    requires |pat| > 0
    ensures Replace(pat + t, pat, rep) == rep + Replace(t, pat, rep)
  {
    assert (pat + t)[|pat|..] == t;
  }

  /** One step of `Replace` when the pattern does not start the text. */
  lemma ReplaceAtOther(x: char, t: string, pat: string, rep: string)
    requires |pat| > 0 && !(pat <= [x] + t)
    ensures Replace([x] + t, pat, rep) == [x] + Replace(t, pat, rep)
  {
    assert ([x] + t)[1..] == t;
  }

  /** One step of `Replace` when the text does not start with the pattern's
      first character. */
  lemma ReplaceAtOtherHead(x: char, t: string, pat: string, rep: string)
    requires |pat| > 0 && x != pat[0]
    ensures Replace([x] + t, pat, rep) == [x] + Replace(t, pat, rep)
  {
    assert !(pat <= [x] + t) by {
      assert ([x] + t)[0] == x;
    }
    ReplaceAtOther(x, t, pat, rep);
  }

  /** With a one-character pattern, `Replace` works character by character,
      so it distributes over concatenation. */
  lemma {:induction false} ReplaceCharConcat(a: string, b: string, c: char, rep: string)
    ensures Replace(a + b, [c], rep) == Replace(a, [c], rep) + Replace(b, [c], rep)
    decreases |a|
  {
    if a == [] {
      assert a + b == b;
    } else {
      var x, t := a[0], a[1..];
      ReplaceCharConcat(t, b, c, rep);
      assert a == [x] + t;
      assert a + b == [x] + (t + b);
      ReplaceCharHead(x, t, c, rep);
      ReplaceCharHead(x, t + b, c, rep);
    }
  }

  /** One step of a one-character `Replace`. */
  lemma ReplaceCharHead(x: char, t: string, c: char, rep: string)
    ensures Replace([x] + t, [c], rep) == (if x == c then rep else [x]) + Replace(t, [c], rep)
  {
    if x == c {
      ReplaceAtMatch([c], t, rep);
    } else {
      ReplaceAtOtherHead(x, t, [c], rep);
    }
  }

  /** A text without the pattern's first character is left as it is. */
  lemma {:induction false} ReplaceAbsent(s: string, pat: string, rep: string)
    requires |pat| > 0 && Count(s, pat[0]) == 0
    ensures Replace(s, pat, rep) == s
    decreases |s|
  {
    if s != [] {
      assert !(pat <= s);
      ReplaceAbsent(s[1..], pat, rep);
    }
  }

  /** A text that contains the pattern nowhere keeps it out of every suffix. */
  lemma {:induction false} NotContainsTail(s: string, pat: string, k: nat)
    requires !Contains(s, pat) && k <= |s|
    ensures !Contains(s[k..], pat)
    decreases k
  {
    if k > 0 {
      assert s[1..][k - 1..] == s[k..];
      NotContainsTail(s[1..], pat, k - 1);
    }
  }

  /** Replacing the two-character pattern `[a, b]` with one character `c`
      different from both leaves no occurrence of the pattern behind. */
  lemma {:induction false} ReplacePairRemovesPair(s: string, a: char, b: char, c: char)
    requires c != a && c != b
    ensures !Contains(Replace(s, [a, b], [c]), [a, b])
    decreases |s|
  {
    var pat := [a, b];
    if s == [] {
    } else if pat <= s {
      ReplaceAtMatch(pat, s[2..], [c]);
      assert s == pat + s[2..];
      ReplacePairRemovesPair(s[2..], a, b, c);
      var y := Replace(s[2..], pat, [c]);
      assert Replace(s, pat, [c]) == [c] + y;
      assert ([c] + y)[1..] == y;
      assert !(pat <= [c] + y) by {
        assert ([c] + y)[0] == c;
      }
    } else {
      assert s == [s[0]] + s[1..];
      ReplaceAtOther(s[0], s[1..], pat, [c]);
      ReplacePairRemovesPair(s[1..], a, b, c);
      var y := Replace(s[1..], pat, [c]);
      assert ([s[0]] + y)[1..] == y;
      if s[0] == a && |y| > 0 {
        var t := s[1..];
        if pat <= t {
          ReplaceAtMatch(pat, t[2..], [c]);
          assert t == pat + t[2..];
        } else {
          assert t == [t[0]] + t[1..];
          ReplaceAtOther(t[0], t[1..], pat, [c]);
        }
        assert y[0] != b;
      }
    }
  }

  /** Replacing `[a, t]` with one character `d` that is neither `a` nor `b`
      cannot create an occurrence of `[a, b]` where there was none. */
  lemma {:induction false} ReplacePairKeepsOtherPairOut(s: string, a: char, t: char, d: char, b: char)
    requires d != a && d != b && !Contains(s, [a, b])
    ensures !Contains(Replace(s, [a, t], [d]), [a, b])
    decreases |s|
  {
    var pat := [a, t];
    if s == [] {
    } else if pat <= s {
      ReplaceAtMatch(pat, s[2..], [d]);
      assert s == pat + s[2..];
      NotContainsTail(s, [a, b], 2);
      ReplacePairKeepsOtherPairOut(s[2..], a, t, d, b);
      var y := Replace(s[2..], pat, [d]);
      assert ([d] + y)[1..] == y;
    } else {
      assert s == [s[0]] + s[1..];
      ReplaceAtOther(s[0], s[1..], pat, [d]);
      NotContainsTail(s, [a, b], 1);
      ReplacePairKeepsOtherPairOut(s[1..], a, t, d, b);
      var y := Replace(s[1..], pat, [d]);
      assert ([s[0]] + y)[1..] == y;
      if s[0] == a && |y| > 0 {
        var u := s[1..];
        assert !([a, b] <= s);
        if pat <= u {
          ReplaceAtMatch(pat, u[2..], [d]);
          assert u == pat + u[2..];
        } else {
          assert u == [u[0]] + u[1..];
          ReplaceAtOther(u[0], u[1..], pat, [d]);
        }
        assert y[0] != b;
      }
    }
  }
}
