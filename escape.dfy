/**
 * `latex_escape` of src/render.rs: a fixed chain of single-character
 * replacements, then `\url{…}` around every link and `{\emojifont …}` around
 * every run of pictographic characters.
 */
module Escape {
  import opened Strings

  /** One `.replace(pattern, replacement)` call of the chain; every pattern is one code point. */
  datatype Step = Step(pattern: char, replacement: string)

  /** The replacement chain of `latex_escape`, in the order the calls are made. */
  const LatexSteps: seq<Step> := [
    // typographic characters replaced by ASCII
    Step('\U{2019}', "'"),
    Step('\U{201C}', "\""),
    Step('\U{201D}', "\""),
    Step('\U{2026}', "..."),
    // LaTeX control characters
    Step('\\', "\\textbackslash\\ "),
    Step('$', "\\$"),
    Step('%', "\\%"),
    Step('&', "\\&"),
    Step('_', "\\_"),
    Step('^', "\\textasciicircum\\ "),
    Step('~', "\\textasciitilde\\ "),
    Step('#', "\\#"),
    Step('{', "\\{"),
    Step('}', "\\}"),
    // explicit line breaks
    Step('\n', "\\newline\n"),
    // the emoji variation selector is dropped
    Step('\U{FE0F}', "")
  ]

  /** Applies the `.replace` calls of `steps` one after the other. */
  function ApplySteps(s: string, steps: seq<Step>): string
    decreases |steps|
  {
    if steps == [] then s
    else ApplySteps(Replace(s, [steps[0].pattern], steps[0].replacement), steps[1..])
  }

  /** The character-escaping part of `latex_escape`. */
  function EscapeChars(s: string): string {
    ApplySteps(s, LatexSteps)
  }

  // ---------------------------------------------------------------------
  // The chain as a single pass

  /** What one pass would write for `c`: the replacement of the first step whose pattern is `c`. */
  function Lookup(steps: seq<Step>, c: char): string
    decreases |steps|
  {
    if steps == [] then [c]
    else if steps[0].pattern == c then steps[0].replacement
    else Lookup(steps[1..], c)
  }

  /** One left-to-right pass that writes `Lookup(steps, c)` for each character `c`. */
  function SubstEach(s: string, steps: seq<Step>): string
    decreases |s|
  {
    if s == [] then [] else Lookup(steps, s[0]) + SubstEach(s[1..], steps)
  }

  /** No replacement text contains the pattern of a later step. */
  predicate Chained(steps: seq<Step>) {
    forall i, j :: 0 <= i < j < |steps| ==> steps[j].pattern !in steps[i].replacement
  }

  /** No character of `t` is a pattern of `steps`. */
  predicate NoPatternIn(t: string, steps: seq<Step>) {
    forall j :: 0 <= j < |steps| ==> steps[j].pattern !in t
  }

  lemma {:induction false} LookupOther(steps: seq<Step>, c: char)
    requires forall j :: 0 <= j < |steps| ==> steps[j].pattern != c
    ensures Lookup(steps, c) == [c]
    decreases |steps|
  {
    if steps != [] {
      LookupOther(steps[1..], c);
    }
  }

  lemma {:induction false} SubstEachAppend(a: string, b: string, steps: seq<Step>)
    ensures SubstEach(a + b, steps) == SubstEach(a, steps) + SubstEach(b, steps)
    decreases |a|
  {
    if a != [] {
      assert (a + b)[1..] == a[1..] + b;
      SubstEachAppend(a[1..], b, steps);
    } else {
      assert a + b == b;
    }
  }

  lemma {:induction false} SubstEachFixed(t: string, steps: seq<Step>)
    requires NoPatternIn(t, steps)
    ensures SubstEach(t, steps) == t
    decreases |t|
  {
    if t != [] {
      assert t[0] in t;
      LookupOther(steps, t[0]);
      assert NoPatternIn(t[1..], steps) by {
        forall j | 0 <= j < |steps| ensures steps[j].pattern !in t[1..] {
          assert steps[j].pattern !in t;
        }
      }
      SubstEachFixed(t[1..], steps);
      assert t == [t[0]] + t[1..];
    }
  }

  /** One replacement followed by a pass of the later steps is a pass of all of them. */
  lemma {:induction false} ReplaceThenPass(s: string, st: Step, rest: seq<Step>)
    requires NoPatternIn(st.replacement, rest)
    ensures SubstEach(Replace(s, [st.pattern], st.replacement), rest) == SubstEach(s, [st] + rest)
    decreases |s|
  {
    var steps := [st] + rest;
    assert steps[1..] == rest;
    if s != [] {
      var tail := Replace(s[1..], [st.pattern], st.replacement);
      ReplaceThenPass(s[1..], st, rest);
      if s[0] == st.pattern {
        assert s[..1] == [st.pattern];
        SubstEachAppend(st.replacement, tail, rest);
        SubstEachFixed(st.replacement, rest);
      } else {
        assert s[..1] != [st.pattern];
        SubstEachAppend([s[0]], tail, rest);
      }
    }
  }

  /**
   * A chain of single-character replacements in which no replacement text
   * contains a later pattern equals one pass over the input: nothing written by
   * one step is rewritten by a later one.
   */
  lemma {:induction false} ChainIsOnePass(s: string, steps: seq<Step>)
    requires Chained(steps)
    ensures ApplySteps(s, steps) == SubstEach(s, steps)
    decreases |steps|
  {
    if steps == [] {
      SubstEachFixed(s, steps);
    } else {
      var rest := steps[1..];
      assert steps == [steps[0]] + rest;
      assert NoPatternIn(steps[0].replacement, rest) by {
        forall j | 0 <= j < |rest| ensures rest[j].pattern !in steps[0].replacement {
          assert rest[j] == steps[j + 1];
        }
      }
      assert Chained(rest) by {
        forall i, j | 0 <= i < j < |rest| ensures rest[j].pattern !in rest[i].replacement {
          assert rest[i] == steps[i + 1] && rest[j] == steps[j + 1];
        }
      }
      ChainIsOnePass(Replace(s, [steps[0].pattern], steps[0].replacement), rest);
      ReplaceThenPass(s, steps[0], rest);
    }
  }

  /** The position of `c` among the patterns of `LatexSteps`, or `|LatexSteps|` if it is none of them. */
  function StepIndex(c: char): nat {
    if c == '\U{2019}' then 0 else if c == '\U{201C}' then 1
    else if c == '\U{201D}' then 2 else if c == '\U{2026}' then 3
    else if c == '\\' then 4 else if c == '$' then 5 else if c == '%' then 6
    else if c == '&' then 7 else if c == '_' then 8 else if c == '^' then 9
    else if c == '~' then 10 else if c == '#' then 11 else if c == '{' then 12
    else if c == '}' then 13 else if c == '\n' then 14 else if c == '\U{FE0F}' then 15
    else 16
  }

  lemma StepIndexOfPattern(j: nat)
    requires j < |LatexSteps|
    ensures StepIndex(LatexSteps[j].pattern) == j
  {
    // one case per step, so that the step is known literally
    if j < 4 {
      if j == 0 {} else if j == 1 {} else if j == 2 {} else {}
    } else if j < 8 {
      if j == 4 {} else if j == 5 {} else if j == 6 {} else {}
    } else if j < 12 {
      if j == 8 {} else if j == 9 {} else if j == 10 {} else {}
    } else {
      if j == 12 {} else if j == 13 {} else if j == 14 {} else {}
    }
  }

  /** Step `i` writes only characters that no later step rewrites. */
  lemma StepWritesNoLaterPattern(i: nat)
    requires i < |LatexSteps|
    ensures forall k :: 0 <= k < |LatexSteps[i].replacement| ==>
      var w := StepIndex(LatexSteps[i].replacement[k]); w <= i || w == |LatexSteps|
  {
    // one case per step, so that the step is known literally
    if i < 4 {
      if i == 0 {} else if i == 1 {} else if i == 2 {} else {}
    } else if i < 8 {
      if i == 4 {} else if i == 5 {} else if i == 6 {} else {}
    } else {
      LaterStepsWriteNoLaterPattern(i);
    }
  }

  /** `StepWritesNoLaterPattern` for the steps from `_` on. */
  lemma LaterStepsWriteNoLaterPattern(i: nat)
    requires 8 <= i < |LatexSteps|
    ensures forall k :: 0 <= k < |LatexSteps[i].replacement| ==>
      var w := StepIndex(LatexSteps[i].replacement[k]); w <= i || w == |LatexSteps|
  {
    if i < 12 {
      if i == 8 {} else if i == 9 {} else if i == 10 {} else {}
    } else {
      if i == 12 {} else if i == 13 {} else if i == 14 {} else {}
    }
  }

  /** Backslash is escaped first and no replacement text holds a character that a later step rewrites. */
  lemma LatexStepsChained()
    ensures Chained(LatexSteps)
  {
    forall i, j | 0 <= i < j < |LatexSteps|
      ensures LatexSteps[j].pattern !in LatexSteps[i].replacement
    {
      StepIndexOfPattern(j);
      StepWritesNoLaterPattern(i);
    }
  }

  /** When only step `j` has pattern `c`, one pass writes step `j`'s replacement for `c`. */
  lemma {:induction false} LookupByIndex(steps: seq<Step>, c: char, j: nat)
    requires forall i :: 0 <= i < |steps| && i != j ==> steps[i].pattern != c
    ensures j < |steps| && steps[j].pattern == c ==> Lookup(steps, c) == steps[j].replacement
    ensures j >= |steps| ==> Lookup(steps, c) == [c]
    decreases |steps|
  {
    if steps != [] {
      if j == 0 {
        if steps[0].pattern != c {
          LookupOther(steps, c);
        }
      } else {
        LookupByIndex(steps[1..], c, j - 1);
      }
    }
  }

  lemma StepIndexIsPattern(c: char)
    ensures StepIndex(c) < |LatexSteps| ==> LatexSteps[StepIndex(c)].pattern == c
  {
  }

  /** What the chain writes for `c`, read off the step list by position. */
  function ChainChar(c: char): string {
    if StepIndex(c) < |LatexSteps| then LatexSteps[StepIndex(c)].replacement else [c]
  }

  lemma LookupIsChainChar(c: char)
    ensures Lookup(LatexSteps, c) == ChainChar(c)
  {
    var steps := LatexSteps;
    forall i | 0 <= i < |steps| && i != StepIndex(c) ensures steps[i].pattern != c {
      StepIndexOfPattern(i);
    }
    StepIndexIsPattern(c);
    LookupByIndex(steps, c, StepIndex(c));
  }

  /**
   * The escaping of one character, written as a table: typographic quotes
   * and the ellipsis become ASCII, LaTeX control characters get their escaped
   * forms, a newline gets an explicit break, U+FE0F is dropped, and every
   * other character (the opening quote U+2018 among them) is kept.
   */
  function EscapeChar(c: char): (r: string) {
    match c
    case '\U{2019}' => "'"
    case '\U{201C}' => "\""
    case '\U{201D}' => "\""
    case '\U{2026}' => "..."
    case '\\' => "\\textbackslash\\ "
    case '^' => "\\textasciicircum\\ "
    case '~' => "\\textasciitilde\\ "
    case '\n' => "\\newline\n"
    case '\U{FE0F}' => ""
    case _ => if IsControl(c) then ['\\', c] else [c]
  }

  /** The LaTeX control characters that are escaped by a backslash in front. */
  predicate IsControl(c: char) {
    c == '$' || c == '%' || c == '&' || c == '_' || c == '#' || c == '{' || c == '}'
  }

  lemma ChainCharIsEscapeChar(c: char)
    ensures ChainChar(c) == EscapeChar(c)
  {
    // four patterns at a time, so that each step is known literally
    if c == '\U{2019}' || c == '\U{201C}' || c == '\U{201D}' || c == '\U{2026}' {
    } else if c == '\\' || c == '$' || c == '%' || c == '&' {
    } else if c == '_' || c == '^' || c == '~' || c == '#' {
    } else if c == '{' || c == '}' || c == '\n' || c == '\U{FE0F}' {
    } else {
      assert StepIndex(c) == |LatexSteps|;
    }
  }

  /** The escaping of a whole text, one character at a time. */
  function EscapeEach(s: string): (r: string)
    decreases |s|
  {
    if s == [] then [] else EscapeChar(s[0]) + EscapeEach(s[1..])
  }

  lemma {:induction false} SubstEachIsEscapeEach(s: string)
    ensures SubstEach(s, LatexSteps) == EscapeEach(s)
    decreases |s|
  {
    if s != [] {
      LookupIsChainChar(s[0]);
      ChainCharIsEscapeChar(s[0]);
      SubstEachIsEscapeEach(s[1..]);
    }
  }

  /**
   * The replace chain of `latex_escape` equals one left-to-right pass of the
   * table `EscapeChar`: no text written by one replacement is rewritten by a
   * later one, so nothing is escaped twice.
   */
  lemma EscapeCharsOnePass(s: string)
    ensures EscapeChars(s) == EscapeEach(s)
  {
    LatexStepsChained();
    ChainIsOnePass(s, LatexSteps);
    SubstEachIsEscapeEach(s);
  }

  lemma {:induction false} EscapeEachAppend(a: string, b: string)
    ensures EscapeEach(a + b) == EscapeEach(a) + EscapeEach(b)
    decreases |a|
  {
    if a == [] {
      assert a + b == b;
    } else {
      assert (a + b)[1..] == a[1..] + b;
      EscapeEachAppend(a[1..], b);
    }
  }

  /** Escaping distributes over concatenation. */
  lemma EscapeCharsAppend(a: string, b: string)
    ensures EscapeChars(a + b) == EscapeChars(a) + EscapeChars(b)
  {
    EscapeCharsOnePass(a + b);
    EscapeCharsOnePass(a);
    EscapeCharsOnePass(b);
    EscapeEachAppend(a, b);
  }

  // ---------------------------------------------------------------------
  // Links: `Regex::new(r"https?://[^\s]+")` and `replace_all(…, r"\url{$0}")`

  /** Unicode White_Space, the characters `\s` matches. */
  predicate IsWhitespace(c: char) {
    ('\t' <= c <= '\r') || c == ' ' || c == '\U{85}' || c == '\U{A0}' || c == '\U{1680}'
    || ('\U{2000}' <= c <= '\U{200A}') || c == '\U{2028}' || c == '\U{2029}'
    || c == '\U{202F}' || c == '\U{205F}' || c == '\U{3000}'
  }

  /** A match of `https?://[^\s]+` begins at the start of `s`. */
  predicate UrlAt(s: string) {
    || (|s| > 7 && s[..7] == "http://" && !IsWhitespace(s[7]))
    || (|s| > 8 && s[..8] == "https://" && !IsWhitespace(s[8]))
  }

  /** The length of the longest prefix of `s` without whitespace. */
  function NonSpaceRun(s: string): (n: nat)
    ensures n <= |s|
    ensures forall k :: 0 <= k < n ==> !IsWhitespace(s[k])
    ensures n < |s| ==> IsWhitespace(s[n])
    decreases |s|
  {
    if s == [] || IsWhitespace(s[0]) then 0 else 1 + NonSpaceRun(s[1..])
  }

  /**
   * `replace_all` with the link pattern: the leftmost match is taken, it runs to
   * the next whitespace (the `+` is greedy), and the search resumes after it.
   */
  function WrapUrls(s: string): (r: string)
    decreases |s|
  {
    if s == [] then []
    else if UrlAt(s) then
      var n := NonSpaceRun(s);
      assert s[0] == 'h';
      "\\url{" + s[..n] + "}" + WrapUrls(s[n..])
    else [s[0]] + WrapUrls(s[1..])
  }

  /** A stretch of text: left as it is, or marked (a link, or a run of pictographs). */
  datatype Piece = Plain(text: string) | Marked(text: string)

  function Flatten(ps: seq<Piece>): string
    decreases |ps|
  {
    if ps == [] then [] else ps[0].text + Flatten(ps[1..])
  }

  /** Writes the pieces, each marked one between `open` and `close`. */
  function Mark(ps: seq<Piece>, open: string, close: string): string
    decreases |ps|
  {
    if ps == [] then []
    else (if ps[0].Marked? then open + ps[0].text + close else ps[0].text) + Mark(ps[1..], open, close)
  }

  /**
   * `ps` cuts a text into the links the pattern finds and the text between
   * them: no link starts inside a plain piece, and every marked piece is a
   * whole match, ending at whitespace or at the end of the text.
   */
  predicate UrlSplit(ps: seq<Piece>)
    decreases |ps|
  {
    ps == [] ||
    (&& (var after := Flatten(ps[1..]);
         match ps[0]
         case Plain(t) => forall k :: 0 <= k < |t| ==> !UrlAt(t[k..] + after)
         case Marked(u) =>
           && UrlAt(u)
           && (forall k :: 0 <= k < |u| ==> !IsWhitespace(u[k]))
           && (after == [] || IsWhitespace(after[0])))
     && UrlSplit(ps[1..]))
  }

  lemma {:induction false} WrapUrlsPlain(t: string, rest: string)
    requires forall k :: 0 <= k < |t| ==> !UrlAt(t[k..] + rest)
    ensures WrapUrls(t + rest) == t + WrapUrls(rest)
    decreases |t|
  {
    if t == [] {
      assert t + rest == rest;
    } else {
      assert t[0..] + rest == t + rest;
      assert (t + rest)[1..] == t[1..] + rest;
      forall k | 0 <= k < |t[1..]| ensures !UrlAt(t[1..][k..] + rest) {
        assert t[1..][k..] == t[k + 1..];
      }
      WrapUrlsPlain(t[1..], rest);
    }
  }

  lemma UrlAtPrefix(u: string, rest: string)
    requires UrlAt(u)
    ensures UrlAt(u + rest)
  {
    var s := u + rest;
    if |u| > 7 && u[..7] == "http://" && !IsWhitespace(u[7]) {
      assert s[..7] == u[..7];
    } else {
      assert s[..8] == u[..8];
    }
  }

  lemma {:induction false} NonSpaceRunOf(u: string, rest: string)
    requires forall k :: 0 <= k < |u| ==> !IsWhitespace(u[k])
    requires rest == [] || IsWhitespace(rest[0])
    ensures NonSpaceRun(u + rest) == |u|
    decreases |u|
  {
    if u == [] {
      assert u + rest == rest;
    } else {
      assert (u + rest)[1..] == u[1..] + rest;
      NonSpaceRunOf(u[1..], rest);
    }
  }

  lemma WrapUrlsMarked(u: string, rest: string)
    requires UrlAt(u)
    requires forall k :: 0 <= k < |u| ==> !IsWhitespace(u[k])
    requires rest == [] || IsWhitespace(rest[0])
    ensures WrapUrls(u + rest) == "\\url{" + u + "}" + WrapUrls(rest)
  {
    var s := u + rest;
    UrlAtPrefix(u, rest);
    NonSpaceRunOf(u, rest);
    assert s[..|u|] == u && s[|u|..] == rest;
  }

  /**
   * Whenever a text is cut into links and the text between them, `WrapUrls`
   * writes each link as `\url{link}` and every other character unchanged.
   */
  lemma {:induction false} WrapUrlsMarksLinks(ps: seq<Piece>)
    requires UrlSplit(ps)
    ensures WrapUrls(Flatten(ps)) == Mark(ps, "\\url{", "}")
    decreases |ps|
  {
    if ps != [] {
      var rest := Flatten(ps[1..]);
      WrapUrlsMarksLinks(ps[1..]);
      match ps[0]
      case Plain(t) =>
        WrapUrlsPlain(t, rest);
      case Marked(u) =>
        WrapUrlsMarked(u, rest);
        assert "\\url{" + u + "}" + WrapUrls(rest) == ("\\url{" + u + "}") + Mark(ps[1..], "\\url{", "}");
    }
  }

  /** A match covers at least the scheme and one more character, and is itself a match. */
  lemma UrlRun(s: string)
    requires UrlAt(s)
    ensures 8 <= NonSpaceRun(s)
    ensures UrlAt(s[..NonSpaceRun(s)])
  {
    var n := NonSpaceRun(s);
    assert s[..7] == "http://" || s[..8] == "https://";
    assert s[0] == 'h' && s[1] == 't' && s[2] == 't' && s[3] == 'p';
    if |s| > 7 && s[..7] == "http://" && !IsWhitespace(s[7]) {
      assert s[4] == ':' && s[5] == '/' && s[6] == '/';
      assert s[..n][..7] == s[..7];
    } else {
      assert s[4] == 's' && s[5] == ':' && s[6] == '/' && s[7] == '/';
      assert s[..n][..8] == s[..8];
    }
  }

  lemma SplitConsMarked(u: string, ps: seq<Piece>)
    requires UrlAt(u) && forall k :: 0 <= k < |u| ==> !IsWhitespace(u[k])
    requires Flatten(ps) == [] || IsWhitespace(Flatten(ps)[0])
    requires UrlSplit(ps)
    ensures Flatten([Marked(u)] + ps) == u + Flatten(ps)
    ensures UrlSplit([Marked(u)] + ps)
  {
    assert ([Marked(u)] + ps)[1..] == ps;
  }

  lemma SplitConsPlain(c: char, ps: seq<Piece>)
    requires !UrlAt([c] + Flatten(ps))
    requires UrlSplit(ps)
    ensures Flatten([Plain([c])] + ps) == [c] + Flatten(ps)
    ensures UrlSplit([Plain([c])] + ps)
  {
    assert ([Plain([c])] + ps)[1..] == ps;
    assert [c][0..] == [c];
  }

  /** Every text can be cut that way: the cut the pattern's search makes. */
  function SplitUrls(s: string): (ps: seq<Piece>)
    ensures Flatten(ps) == s
    ensures UrlSplit(ps)
    decreases |s|
  {
    if s == [] then []
    else if UrlAt(s) then
      var n := NonSpaceRun(s);
      UrlRun(s);
      assert s[..n] + s[n..] == s;
      SplitConsMarked(s[..n], SplitUrls(s[n..]));
      [Marked(s[..n])] + SplitUrls(s[n..])
    else
      assert [s[0]] + s[1..] == s;
      SplitConsPlain(s[0], SplitUrls(s[1..]));
      [Plain([s[0]])] + SplitUrls(s[1..])
  }

  // ---------------------------------------------------------------------
  // Emoji: `Regex::new(r"(\p{Extended_Pictographic}+)")` and
  // `replace_all(…, "{\\emojifont $1}")`. The Unicode property is the
  // parameter `pict`.

  /** The length of the longest prefix of `s` made of pictographic characters. */
  function PictRun(s: string, pict: char -> bool): (n: nat)
    ensures n <= |s|
    ensures forall k :: 0 <= k < n ==> pict(s[k])
    ensures n < |s| ==> !pict(s[n])
    decreases |s|
  {
    if s == [] || !pict(s[0]) then 0 else 1 + PictRun(s[1..], pict)
  }

  /** `replace_all` with the pictograph pattern: every maximal run is wrapped in `{\emojifont …}`. */
  function WrapEmoji(s: string, pict: char -> bool): (r: string)
    decreases |s|
  {
    if s == [] then []
    else if pict(s[0]) then
      var n := PictRun(s, pict);
      "{\\emojifont " + s[..n] + "}" + WrapEmoji(s[n..], pict)
    else [s[0]] + WrapEmoji(s[1..], pict)
  }

  /**
   * `ps` cuts a text into maximal runs of pictographs (marked) and text
   * without pictographs (plain).
   */
  predicate EmojiSplit(ps: seq<Piece>, pict: char -> bool)
    decreases |ps|
  {
    ps == [] ||
    (&& (var after := Flatten(ps[1..]);
         match ps[0]
         case Plain(t) => forall k :: 0 <= k < |t| ==> !pict(t[k])
         case Marked(e) =>
           && e != []
           && (forall k :: 0 <= k < |e| ==> pict(e[k]))
           && (after == [] || !pict(after[0])))
     && EmojiSplit(ps[1..], pict))
  }

  lemma {:induction false} WrapEmojiPlain(t: string, rest: string, pict: char -> bool)
    requires forall k :: 0 <= k < |t| ==> !pict(t[k])
    ensures WrapEmoji(t + rest, pict) == t + WrapEmoji(rest, pict)
    decreases |t|
  {
    if t == [] {
      assert t + rest == rest;
    } else {
      assert (t + rest)[1..] == t[1..] + rest;
      WrapEmojiPlain(t[1..], rest, pict);
    }
  }

  lemma {:induction false} PictRunOf(e: string, rest: string, pict: char -> bool)
    requires forall k :: 0 <= k < |e| ==> pict(e[k])
    requires rest == [] || !pict(rest[0])
    ensures PictRun(e + rest, pict) == |e|
    decreases |e|
  {
    if e == [] {
      assert e + rest == rest;
    } else {
      assert (e + rest)[1..] == e[1..] + rest;
      PictRunOf(e[1..], rest, pict);
    }
  }

  lemma WrapEmojiMarked(e: string, rest: string, pict: char -> bool)
    requires e != [] && forall k :: 0 <= k < |e| ==> pict(e[k])
    requires rest == [] || !pict(rest[0])
    ensures WrapEmoji(e + rest, pict) == "{\\emojifont " + e + "}" + WrapEmoji(rest, pict)
  {
    var s := e + rest;
    PictRunOf(e, rest, pict);
    assert s[0] == e[0];
    assert s[..|e|] == e && s[|e|..] == rest;
  }

  /**
   * Whenever a text is cut into maximal pictograph runs and the text between
   * them, `WrapEmoji` writes each run as `{\emojifont run}` and leaves every
   * other character as it is.
   */
  lemma {:induction false} WrapEmojiMarksRuns(ps: seq<Piece>, pict: char -> bool)
    requires EmojiSplit(ps, pict)
    ensures WrapEmoji(Flatten(ps), pict) == Mark(ps, "{\\emojifont ", "}")
    decreases |ps|
  {
    if ps != [] {
      var rest := Flatten(ps[1..]);
      WrapEmojiMarksRuns(ps[1..], pict);
      match ps[0]
      case Plain(t) =>
        WrapEmojiPlain(t, rest, pict);
      case Marked(e) =>
        WrapEmojiMarked(e, rest, pict);
        assert "{\\emojifont " + e + "}" + WrapEmoji(rest, pict)
          == ("{\\emojifont " + e + "}") + Mark(ps[1..], "{\\emojifont ", "}");
    }
  }

  lemma EmojiConsMarked(e: string, ps: seq<Piece>, pict: char -> bool)
    requires e != [] && forall k :: 0 <= k < |e| ==> pict(e[k])
    requires Flatten(ps) == [] || !pict(Flatten(ps)[0])
    requires EmojiSplit(ps, pict)
    ensures Flatten([Marked(e)] + ps) == e + Flatten(ps)
    ensures EmojiSplit([Marked(e)] + ps, pict)
  {
    assert ([Marked(e)] + ps)[1..] == ps;
  }

  lemma EmojiConsPlain(c: char, ps: seq<Piece>, pict: char -> bool)
    requires !pict(c)
    requires EmojiSplit(ps, pict)
    ensures Flatten([Plain([c])] + ps) == [c] + Flatten(ps)
    ensures EmojiSplit([Plain([c])] + ps, pict)
  {
    assert ([Plain([c])] + ps)[1..] == ps;
  }

  /** Every text can be cut into maximal pictograph runs and the text between them. */
  function SplitEmoji(s: string, pict: char -> bool): (ps: seq<Piece>)
    ensures Flatten(ps) == s
    ensures EmojiSplit(ps, pict)
    decreases |s|
  {
    if s == [] then []
    else if pict(s[0]) then
      var n := PictRun(s, pict);
      assert s[..n] + s[n..] == s;
      EmojiConsMarked(s[..n], SplitEmoji(s[n..], pict), pict);
      [Marked(s[..n])] + SplitEmoji(s[n..], pict)
    else
      assert [s[0]] + s[1..] == s;
      EmojiConsPlain(s[0], SplitEmoji(s[1..], pict), pict);
      [Plain([s[0]])] + SplitEmoji(s[1..], pict)
  }

  // ---------------------------------------------------------------------
  // The whole of `latex_escape`

  /** `latex_escape`: the replace chain, then links, then pictograph runs. */
  function LatexEscape(text: string, pict: char -> bool): string {
    WrapEmoji(WrapUrls(EscapeChars(text)), pict)
  }

  /** A single character goes through the whole chain as the table says. */
  lemma EscapeCharsSingle(c: char)
    ensures EscapeChars([c]) == EscapeChar(c)
  {
    EscapeCharsOnePass([c]);
    assert [c][1..] == [];
  }

  /** Characters the table keeps come out of the chain unchanged. */
  lemma {:induction false} EscapeEachKeeps(s: string)
    requires forall k :: 0 <= k < |s| ==> EscapeChar(s[k]) == [s[k]]
    ensures EscapeEach(s) == s
    decreases |s|
  {
    if s != [] {
      EscapeEachKeeps(s[1..]);
      assert s == [s[0]] + s[1..];
    }
  }

  lemma EscapeCharEscapesControl(c: char)
    ensures forall k :: 0 <= k < |EscapeChar(c)| && IsControl(EscapeChar(c)[k]) ==>
      0 < k && EscapeChar(c)[k - 1] == '\\'
  {
    // one case per multi-character replacement, so that each is known literally
    if c == '\\' {
    } else if c == '^' {
    } else if c == '~' {
    } else if c == '\n' {
    } else if c == '\U{2026}' {
    } else {
      assert |EscapeChar(c)| <= 2;
    }
  }

  /**
   * After the chain, each of `$ % & _ # { }` is preceded by a backslash: no
   * LaTeX control character is left unescaped.
   */
  lemma {:induction false} ControlCharsEscaped(s: string)
    ensures forall k :: 0 <= k < |EscapeEach(s)| && IsControl(EscapeEach(s)[k]) ==>
      0 < k && EscapeEach(s)[k - 1] == '\\'
    decreases |s|
  {
    if s != [] {
      var head, tail := EscapeChar(s[0]), EscapeEach(s[1..]);
      ControlCharsEscaped(s[1..]);
      EscapeCharEscapesControl(s[0]);
      assert EscapeEach(s) == head + tail;
      forall k | |head| <= k < |head + tail| && IsControl((head + tail)[k])
        ensures |head| < k && (head + tail)[k - 1] == '\\'
      {
        assert (head + tail)[k] == tail[k - |head|];
      }
    }
  }

  /**
   * Text in which, once escaped, no link starts and no pictograph occurs comes
   * out of `latex_escape` as the one-pass escape alone.
   */
  lemma LatexEscapeWithoutLinksOrEmoji(s: string, pict: char -> bool)
    requires forall k :: 0 <= k < |EscapeEach(s)| ==> !UrlAt(EscapeEach(s)[k..])
    requires forall k :: 0 <= k < |EscapeEach(s)| ==> !pict(EscapeEach(s)[k])
    ensures LatexEscape(s, pict) == EscapeEach(s)
  {
    EscapeCharsOnePass(s);
    WrapUrlsNone(EscapeEach(s));
    WrapEmojiNone(EscapeEach(s), pict);
  }

  /** Text in which no link starts is left as it is by the link wrapping. */
  lemma WrapUrlsNone(t: string)
    requires forall k :: 0 <= k < |t| ==> !UrlAt(t[k..])
    ensures WrapUrls(t) == t
  {
    forall k | 0 <= k < |t| ensures !UrlAt(t[k..] + []) {
      assert t[k..] + [] == t[k..];
    }
    WrapUrlsPlain(t, []);
    assert t + [] == t;
  }

  /** Text without pictographs is left as it is by the emoji wrapping. */
  lemma WrapEmojiNone(t: string, pict: char -> bool)
    requires forall k :: 0 <= k < |t| ==> !pict(t[k])
    ensures WrapEmoji(t, pict) == t
  {
    WrapEmojiPlain(t, [], pict);
    assert t + [] == t;
  }

  /**
   * Text with no character of the escape table, no link and no pictograph
   * comes out of `latex_escape` unchanged.
   */
  lemma LatexEscapePlainText(s: string, pict: char -> bool)
    requires forall k :: 0 <= k < |s| ==> EscapeChar(s[k]) == [s[k]]
    requires forall k :: 0 <= k < |s| ==> !UrlAt(s[k..]) && !pict(s[k])
    ensures LatexEscape(s, pict) == s
  {
    EscapeEachKeeps(s);
    LatexEscapeWithoutLinksOrEmoji(s, pict);
  }
}
