/**
 * src/main.rs, `iter_messages`: assembling `main.tex` from the template,
 * the configuration and the list of chapters.
 */
module Manuscript {
  import opened Wrappers
  import opened Strings

  /** The fields of `config.json` that fill the template. */
  datatype Config = Config(
    title: string,
    copyright: string,
    dedicationTitle: string,
    dedicationMessage: string,
    preface: Option<string>)

  const TitlePlaceholder: string := "iMessage Book"
  const CopyrightPlaceholder: string := "ALL RIGHTS RESERVED"
  const DedicationPlaceholder: string := "\\begin{center}\n  \\textit{Dedicated to you.}\n\\end{center}"
  const MainMatter: string := "\\mainmatter"
  const EndDocument: string := "\\end{document}"

  /** A centred italic line. */
  function Centered(text: string): string {
    "\\begin{center}\n  \\textit{" + text + "}\n\\end{center}"
  }

  /** The two centred lines that replace the default dedication. */
  function Dedication(config: Config): string {
    Centered(config.dedicationTitle) + "\n" + Centered(config.dedicationMessage)
  }

  /** The three `replace` calls on the template, in order. */
  function FillTemplate(template: string, config: Config): string {
    var titled := Replace(template, TitlePlaceholder, config.title);
    var copyrighted := Replace(titled, CopyrightPlaceholder, config.copyright);
    Replace(copyrighted, DedicationPlaceholder, Dedication(config))
  }

  /** The unnumbered preface chapter, closed by its own `\mainmatter`. */
  function PrefaceSection(preface: string): string {
    "\\chapter*{Preface}\n" + preface + "\n\\mainmatter\n"
  }

  /**
   * With a preface, its section is inserted right before the first
   * `\mainmatter`; without a preface or without `\mainmatter` the text is kept.
   */
  function InsertPreface(text: string, preface: Option<string>): (r: string)
    ensures preface.None? || Find(text, MainMatter).None? ==> r == text
    ensures preface.Some? && Find(text, MainMatter).Some? ==>
      var pos := Find(text, MainMatter).value;
      var section := PrefaceSection(preface.value);
      pos <= |text| && |r| == |text| + |section|
      && r[..pos] == text[..pos] && r[pos..pos + |section|] == section && r[pos + |section|..] == text[pos..]
  {
    match preface
    case None => text
    case Some(p) =>
      match Find(text, MainMatter)
      case None => text
      case Some(pos) => text[..pos] + PrefaceSection(p) + text[pos..]
  }

  /** `\include{name}` on a line of its own. */
  function IncludeLine(name: string): string {
    "\\include{" + name + "}\n"
  }

  /** The include lines of the chapters, in order. */
  function Includes(names: seq<string>): string {
    if names == [] then "" else IncludeLine(names[0]) + Includes(names[1..])
  }

  /** The whole of `main.tex`. */
  function MainTex(template: string, config: Config, chapters: seq<string>): string {
    InsertPreface(FillTemplate(template, config), config.preface) + Includes(chapters) + EndDocument
  }

  // ---------------------------------------------------------------------
  // The placeholders

  /**
   * When each placeholder stands exactly once in the text it is replaced in
   * (the earlier values do not create or break a later placeholder), each is
   * replaced by its configured value and the rest of the template is kept.
   */
  lemma FillTemplatePlaceholders(a: string, b: string, c: string, d: string, config: Config)
    requires OnlyAt(a + TitlePlaceholder + b + CopyrightPlaceholder + c + DedicationPlaceholder + d,
      TitlePlaceholder, |a|)
    requires OnlyAt(a + config.title + b + CopyrightPlaceholder + c + DedicationPlaceholder + d,
      CopyrightPlaceholder, |a + config.title + b|)
    requires OnlyAt(a + config.title + b + config.copyright + c + DedicationPlaceholder + d,
      DedicationPlaceholder, |a + config.title + b + config.copyright + c|)
    ensures FillTemplate(a + TitlePlaceholder + b + CopyrightPlaceholder + c + DedicationPlaceholder + d, config)
      == a + config.title + b + config.copyright + c + Dedication(config) + d
  {
    ReplaceInTurn(a, b, c, d, TitlePlaceholder, CopyrightPlaceholder, DedicationPlaceholder,
      config.title, config.copyright, Dedication(config));
  }

  /**
   * Every occurrence of each placeholder is replaced: `parts1` is the template
   * cut at its title placeholders, `parts2` the text after the first
   * replacement cut at its copyright placeholders, and `parts3` the text after
   * the second cut at its dedication placeholders.
   */
  lemma FillTemplateEveryOccurrence(parts1: seq<string>, parts2: seq<string>, parts3: seq<string>, config: Config)
    requires SeparatedBy(parts1, TitlePlaceholder)
    requires SeparatedBy(parts2, CopyrightPlaceholder) && Join(parts1, config.title) == Join(parts2, CopyrightPlaceholder)
    requires SeparatedBy(parts3, DedicationPlaceholder) && Join(parts2, config.copyright) == Join(parts3, DedicationPlaceholder)
    ensures FillTemplate(Join(parts1, TitlePlaceholder), config) == Join(parts3, Dedication(config))
  {
    ReplaceJoinInTurn(parts1, parts2, parts3, TitlePlaceholder, CopyrightPlaceholder, DedicationPlaceholder,
      config.title, config.copyright, Dedication(config));
  }

  /** For any template, each placeholder in turn is cut out everywhere and its value put in its place. */
  lemma FillTemplateSplits(template: string, config: Config)
    ensures var titled := Join(SplitAtPattern(template, TitlePlaceholder), config.title);
      var copyrighted := Join(SplitAtPattern(titled, CopyrightPlaceholder), config.copyright);
      FillTemplate(template, config) == Join(SplitAtPattern(copyrighted, DedicationPlaceholder), Dedication(config))
  {
    var parts1 := SplitAtPattern(template, TitlePlaceholder);
    var parts2 := SplitAtPattern(Join(parts1, config.title), CopyrightPlaceholder);
    var parts3 := SplitAtPattern(Join(parts2, config.copyright), DedicationPlaceholder);
    FillTemplateEveryOccurrence(parts1, parts2, parts3, config);
  }

  lemma ReplaceJoinInTurn(parts1: seq<string>, parts2: seq<string>, parts3: seq<string>,
                          p1: string, p2: string, p3: string, v1: string, v2: string, v3: string)
    requires p1 != [] && p2 != [] && p3 != []
    requires SeparatedBy(parts1, p1)
    requires SeparatedBy(parts2, p2) && Join(parts1, v1) == Join(parts2, p2)
    requires SeparatedBy(parts3, p3) && Join(parts2, v2) == Join(parts3, p3)
    ensures Replace(Replace(Replace(Join(parts1, p1), p1, v1), p2, v2), p3, v3) == Join(parts3, v3)
  {
    ReplaceJoin(parts1, p1, v1);
    ReplaceJoin(parts2, p2, v2);
    ReplaceJoin(parts3, p3, v3);
  }

  /** Three successive replacements, each of a pattern standing once in the text it is applied to. */
  lemma ReplaceInTurn(a: string, b: string, c: string, d: string, p1: string, p2: string, p3: string,
                      v1: string, v2: string, v3: string)
    requires p1 != [] && p2 != [] && p3 != []
    requires OnlyAt(a + p1 + b + p2 + c + p3 + d, p1, |a|)
    requires OnlyAt(a + v1 + b + p2 + c + p3 + d, p2, |a + v1 + b|)
    requires OnlyAt(a + v1 + b + v2 + c + p3 + d, p3, |a + v1 + b + v2 + c|)
    ensures Replace(Replace(Replace(a + p1 + b + p2 + c + p3 + d, p1, v1), p2, v2), p3, v3)
      == a + v1 + b + v2 + c + v3 + d
  {
    assert a + p1 + b + p2 + c + p3 + d == a + p1 + (b + p2 + c + p3 + d);
    assert a + v1 + (b + p2 + c + p3 + d) == a + v1 + b + p2 + c + p3 + d;
    ReplaceOnce(a, p1, b + p2 + c + p3 + d, v1);
    assert a + v1 + b + p2 + c + p3 + d == (a + v1 + b) + p2 + (c + p3 + d);
    assert (a + v1 + b) + v2 + (c + p3 + d) == a + v1 + b + v2 + c + p3 + d;
    ReplaceOnce(a + v1 + b, p2, c + p3 + d, v2);
    ReplaceOnce(a + v1 + b + v2 + c, p3, d, v3);
  }

  // ---------------------------------------------------------------------
  // The preface

  /**
   * The preface section ends in its own `\mainmatter`, right before the
   * template's, so a book with a preface has the command twice in a row.
   */
  lemma PrefaceDoublesMainMatter(text: string, preface: string)
    requires Find(text, MainMatter).Some?
    ensures var pos := Find(text, MainMatter).value;
      var r := InsertPreface(text, Some(preface));
      var end := pos + |PrefaceSection(preface)|;
      OccursAt(r, MainMatter, end - 12) && OccursAt(r, MainMatter, end)
  {
    var pos := Find(text, MainMatter).value;
    var section := PrefaceSection(preface);
    var r := InsertPreface(text, Some(preface));
    var end := pos + |section|;
    SectionEndsInMainMatter(preface);
    assert r[end - 12..end - 1] == r[pos..end][|section| - 12..|section| - 1];
    assert r[end..end + 11] == r[end..][..11];
  }

  lemma SectionEndsInMainMatter(preface: string)
    ensures var section := PrefaceSection(preface);
      |section| >= 12 && section[|section| - 12..|section| - 1] == MainMatter
  {
    var section := PrefaceSection(preface);
    var tail := "\n\\mainmatter\n";
    assert section == "\\chapter*{Preface}\n" + preface + tail;
    assert section[|section| - 12..|section| - 1] == tail[1..12];
  }

  // ---------------------------------------------------------------------
  // The include list

  lemma {:induction false} IncludesAppend(names: seq<string>, name: string)
    ensures Includes(names + [name]) == Includes(names) + IncludeLine(name)
    decreases |names|
  {
    if names == [] {
      assert Includes([name]) == IncludeLine(name) + Includes([]);
    } else {
      IncludesAppend(names[1..], name);
      assert (names + [name])[1..] == names[1..] + [name];
    }
  }

  /** Reads a block of include lines back into chapter names. */
  function ParseIncludes(s: string): Option<seq<string>>
    decreases |s|
  {
    if s == [] then Some([])
    else if |s| < 9 || s[..9] != "\\include{" then None
    else
      match Find(s[9..], "}\n")
      case None => None
      case Some(i) =>
        match ParseIncludes(s[9 + i + 2..])
        case None => None
        case Some(names) => Some([s[9..9 + i]] + names)
  }

  lemma IncludeLineSplit(name: string, rest: string)
    requires forall k :: 0 <= k < |name| ==> name[k] != '}'
    ensures var s := IncludeLine(name) + rest;
      |s| >= 9 && s[..9] == "\\include{" && Find(s[9..], "}\n") == Some(|name|)
      && s[9..9 + |name|] == name && s[9 + |name| + 2..] == rest
  {
    var s := IncludeLine(name) + rest;
    assert s == "\\include{" + (name + "}\n" + rest);
    assert s[9..] == name + "}\n" + rest;
    FindAfter(name, "}\n", rest);
  }

  /** `main.tex` lists exactly the chapters, in order, given that no name contains `}`. */
  lemma {:induction false} IncludesRoundTrip(names: seq<string>)
    requires forall n, k :: n in names && 0 <= k < |n| ==> n[k] != '}'
    ensures ParseIncludes(Includes(names)) == Some(names)
    decreases |names|
  {
    if names != [] {
      IncludesRoundTrip(names[1..]);
      IncludeLineSplit(names[0], Includes(names[1..]));
      assert [names[0]] + names[1..] == names;
    }
  }
}
