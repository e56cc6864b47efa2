/**
 * src/main.rs, `iter_messages`: the loop that writes one file per chapter
 * and then `main.tex`, over the output directory as a map from file names
 * to contents.
 */
module Exporter {
  import opened Wrappers
  import opened Strings
  import opened Messages
  import opened Render
  import opened Selection
  import opened Chapters
  import opened Manuscript

  const MainFile: string := "main.tex"

  /** The output directory and the loop state of `iter_messages`. */
  class Book {
    /** The files written so far, by name. */
    var files: map<string, string>
    /** The names of the chapters opened so far, in order (`chapters`). */
    var chapters: seq<string>
    /** The chapter whose file is open (`current_output_info`). */
    var current: Option<string>

    /** The open chapter is the last one listed and its file exists. */
    ghost predicate Valid()
      reads this
    {
      (current.None? <==> chapters == [])
      && (current.Some? ==> chapters[|chapters| - 1] == current.value && ChapterFile(current.value) in files)
    }

    constructor ()
      ensures Valid()
      ensures files == map[] && chapters == [] && current == None
    {
      files := map[];
      chapters := [];
      current := None;
    }

    /**
     * Makes the chapter of month `k` the open one: when it is not already
     * open, its file is created (or truncated) with the chapter heading and
     * its name is appended to the chapter list.
     */
    method EnterChapter(k: ChapterKey)
      requires Valid() && ValidKey(k)
      modifies this
      ensures Valid()
      ensures current == Some(ChapterName(k))
      ensures old(current) == Some(ChapterName(k)) ==> files == old(files) && chapters == old(chapters)
      ensures old(current) != Some(ChapterName(k)) ==> chapters == old(chapters) + [ChapterName(k)]
      ensures old(current) != Some(ChapterName(k)) ==> files == old(files)[ChapterFile(ChapterName(k)) := Opening(k)]
    {
      var name := ChapterName(k);
      if current != Some(name) {
        var fileName := name + ".tex";
        files := files[fileName := "\\chapter{" + Heading(k) + "}\n\n"];
        current := Some(name);
        chapters := chapters + [name];
      }
    }

    /** Appends `block` to the open chapter file. */
    method AppendBlock(block: string)
      requires Valid() && current.Some?
      modifies this
      ensures Valid()
      ensures chapters == old(chapters) && current == old(current)
      ensures var file := ChapterFile(current.value);
        files == old(files)[file := old(files)[file] + block]
    {
      var file := current.value + ".tex";
      files := files[file := files[file] + block];
    }

    /** One iteration of the loop: enter the message's chapter, then append its block. */
    method ProcessMessage(msg: Message, pict: char -> bool)
      requires Valid() && ValidKey(msg.key)
      modifies this
      ensures Valid()
      ensures current == Some(ChapterName(msg.key))
      ensures old(current) == Some(ChapterName(msg.key)) ==> chapters == old(chapters)
      ensures old(current) != Some(ChapterName(msg.key)) ==> chapters == old(chapters) + [ChapterName(msg.key)]
      ensures var file := ChapterFile(ChapterName(msg.key));
        files == old(files)[file := (if old(current) == Some(ChapterName(msg.key)) then old(files)[file] else Opening(msg.key))
          + Contribution(msg, pict)]
    {
      EnterChapter(msg.key);
      if msg.generated {
        var rendered := RenderMessage(msg, false, pict);
        AppendBlock(rendered);
      } else {
        assert files[ChapterFile(ChapterName(msg.key))] + Contribution(msg, pict) == files[ChapterFile(ChapterName(msg.key))];
      }
    }

    /**
     * The loop over the messages, from a book with no chapter yet: afterwards
     * the chapter list names every month once per run of its messages, and
     * every month's file holds its chapter text.
     */
    method WriteChapters(msgs: seq<Message>, pict: char -> bool)
      requires ValidKeys(msgs) && Chronological(msgs)
      requires files == map[] && chapters == [] && current == None
      modifies this
      ensures Valid()
      ensures chapters == Collapse(ChapterNames(msgs))
      ensures files.Keys == set n | n in chapters :: ChapterFile(n)
      ensures forall j :: 0 <= j < |msgs| ==>
        var file := ChapterFile(ChapterName(msgs[j].key));
        file in files && files[file] == ChapterText(msgs, msgs[j].key, pict)
    {
      assert msgs[..0] == [];
      assert files.Keys == set n | n in chapters :: ChapterFile(n);
      var i := 0;
      while i < |msgs|
        invariant i <= |msgs|
        invariant Valid()
        invariant Progress(msgs, i, pict, files, chapters, current)
      {
        ghost var before, listed, open := files, chapters, current;
        ProcessMessage(msgs[i], pict);
        LoopStep(msgs, i, pict, before, listed, open, files, chapters, current);
        i := i + 1;
      }
      ProgressComplete(msgs, pict, files, chapters, current);
    }

    /** Writes `main.tex`: the filled-in template, one include line per chapter, then the end of the document. */
    method WriteMainTex(template: string, config: Config)
      requires Valid()
      modifies this
      ensures Valid()
      ensures files == old(files)[MainFile := MainTex(template, config, chapters)]
      ensures chapters == old(chapters) && current == old(current)
    {
      var main := template;
      main := Replace(main, TitlePlaceholder, config.title);
      main := Replace(main, CopyrightPlaceholder, config.copyright);
      main := Replace(main, DedicationPlaceholder, Dedication(config));
      if config.preface.Some? {
        var section := PrefaceSection(config.preface.value);
        var found := Find(main, MainMatter);
        if found.Some? {
          main := main[..found.value] + section + main[found.value..];
        }
      }
      assert main == InsertPreface(FillTemplate(template, config), config.preface);
      var front := main;
      var names := chapters;
      var i := 0;
      while i < |names|
        invariant i <= |names|
        invariant main == front + Includes(names[..i])
        invariant files == old(files) && chapters == old(chapters) && current == old(current)
      {
        IncludesAppend(names[..i], names[i]);
        assert names[..i + 1] == names[..i] + [names[i]];
        ConcatAssoc(front, Includes(names[..i]), IncludeLine(names[i]));
        main := main + IncludeLine(names[i]);
        i := i + 1;
      }
      assert names[..|names|] == names;
      main := main + EndDocument;
      files := files[MainFile := main];
    }
  }

  // ---------------------------------------------------------------------
  // The loop invariant

  /** Every chapter file of the first `upto` messages holds that month's text so far. */
  ghost predicate FilesMatch(files: map<string, string>, msgs: seq<Message>, upto: nat, pict: char -> bool)
    requires ValidKeys(msgs) && upto <= |msgs|
  {
    forall j :: 0 <= j < upto ==>
      var file := ChapterFile(ChapterName(msgs[j].key));
      file in files && files[file] == ChapterText(msgs[..upto], msgs[j].key, pict)
  }

  /**
   * The state of the loop after the first `upto` messages: the chapters of
   * their runs of months, the last one open, one file per chapter holding its
   * text so far.
   */
  ghost predicate Progress(msgs: seq<Message>, upto: nat, pict: char -> bool,
                           files: map<string, string>, chapters: seq<string>, current: Option<string>)
    requires ValidKeys(msgs) && upto <= |msgs|
  {
    && chapters == RunsUpTo(ChapterNames(msgs), upto)
    && current == (if upto == 0 then None else Some(ChapterName(msgs[upto - 1].key)))
    && files.Keys == (set n | n in chapters :: ChapterFile(n))
    && FilesMatch(files, msgs, upto, pict)
  }

  /** One call of `ProcessMessage` on the next message carries `Progress` one message further. */
  lemma LoopStep(msgs: seq<Message>, i: nat, pict: char -> bool,
                 files: map<string, string>, chapters: seq<string>, current: Option<string>,
                 files': map<string, string>, chapters': seq<string>, current': Option<string>)
    requires ValidKeys(msgs) && Chronological(msgs) && i < |msgs|
    requires Progress(msgs, i, pict, files, chapters, current)
    requires current' == Some(ChapterName(msgs[i].key))
    requires current == Some(ChapterName(msgs[i].key)) ==> chapters' == chapters
    requires current != Some(ChapterName(msgs[i].key)) ==> chapters' == chapters + [ChapterName(msgs[i].key)]
    requires var file := ChapterFile(ChapterName(msgs[i].key));
      files' == files[file := (if current == Some(ChapterName(msgs[i].key)) then files[file] else Opening(msgs[i].key))
        + Contribution(msgs[i], pict)]
    ensures Progress(msgs, i + 1, pict, files', chapters', current')
  {
    var m := msgs[i];
    var name := ChapterName(m.key);
    var file := ChapterFile(name);
    var text := ChapterText(msgs[..i + 1], m.key, pict);
    var continued := i > 0 && ChapterName(msgs[i - 1].key) == name;
    assert continued <==> current == Some(name);
    if continued {
      ContinueChapter(msgs, i, files, pict);
    } else {
      OpenChapter(msgs, i, pict);
    }
    assert files' == files[file := text];
    ProcessStep(msgs, i, files, pict);
    ChaptersStep(msgs, i, chapters);
    if continued {
      RewriteKeepsFiles(files, chapters, name, text);
    } else {
      CreateAddsFile(files, chapters, name, text);
    }
  }

  /** `Progress` over all the messages is the finished book. */
  lemma ProgressComplete(msgs: seq<Message>, pict: char -> bool,
                         files: map<string, string>, chapters: seq<string>, current: Option<string>)
    requires ValidKeys(msgs)
    requires Progress(msgs, |msgs|, pict, files, chapters, current)
    ensures chapters == Collapse(ChapterNames(msgs))
    ensures files.Keys == set n | n in chapters :: ChapterFile(n)
    ensures forall j :: 0 <= j < |msgs| ==>
      var file := ChapterFile(ChapterName(msgs[j].key));
      file in files && files[file] == ChapterText(msgs, msgs[j].key, pict)
  {
    RunsUpToAll(ChapterNames(msgs));
    FilesComplete(files, msgs, pict);
  }

  /** Matching files after the last message hold the whole chapter texts. */
  lemma FilesComplete(files: map<string, string>, msgs: seq<Message>, pict: char -> bool)
    requires ValidKeys(msgs) && FilesMatch(files, msgs, |msgs|, pict)
    ensures forall j :: 0 <= j < |msgs| ==>
      var file := ChapterFile(ChapterName(msgs[j].key));
      file in files && files[file] == ChapterText(msgs, msgs[j].key, pict)
  {
    var all := msgs[..|msgs|];
    assert all == msgs;
  }

  /** The chapter list grows by the next message's chapter exactly when that message starts a new run. */
  lemma ChaptersStep(msgs: seq<Message>, i: nat, chapters: seq<string>)
    requires ValidKeys(msgs) && i < |msgs|
    requires chapters == RunsUpTo(ChapterNames(msgs), i)
    ensures i > 0 && ChapterName(msgs[i - 1].key) == ChapterName(msgs[i].key) ==>
      RunsUpTo(ChapterNames(msgs), i + 1) == chapters
    ensures !(i > 0 && ChapterName(msgs[i - 1].key) == ChapterName(msgs[i].key)) ==>
      RunsUpTo(ChapterNames(msgs), i + 1) == chapters + [ChapterName(msgs[i].key)]
    ensures i > 0 ==> ChapterName(msgs[i - 1].key) in chapters
  {
    var names := ChapterNames(msgs);
    assert names[i] == ChapterName(msgs[i].key);
    if i > 0 {
      assert names[i - 1] == ChapterName(msgs[i - 1].key);
      RunsUpToLast(names, i);
    }
  }

  /** In date order, a message that does not continue the open chapter is the first of its month. */
  lemma FirstOfMonth(msgs: seq<Message>, i: nat)
    requires ValidKeys(msgs) && Chronological(msgs) && 0 < i < |msgs|
    requires ChapterName(msgs[i - 1].key) != ChapterName(msgs[i].key)
    ensures forall j :: 0 <= j < i ==> msgs[j].key != msgs[i].key
  {
    forall j | 0 <= j < i
      ensures msgs[j].key != msgs[i].key
    {
      assert KeyLe(msgs[j].key, msgs[i - 1].key);
      assert KeyLe(msgs[i - 1].key, msgs[i].key);
    }
  }

  /** A message of the open month extends that month's file by its contribution. */
  lemma ContinueChapter(msgs: seq<Message>, i: nat, files: map<string, string>, pict: char -> bool)
    requires ValidKeys(msgs) && 0 < i < |msgs|
    requires FilesMatch(files, msgs, i, pict)
    requires ChapterName(msgs[i - 1].key) == ChapterName(msgs[i].key)
    ensures ChapterFile(ChapterName(msgs[i].key)) in files
    ensures files[ChapterFile(ChapterName(msgs[i].key))] + Contribution(msgs[i], pict)
      == ChapterText(msgs[..i + 1], msgs[i].key, pict)
  {
    var k := msgs[i].key;
    var pre := msgs[..i];
    ChapterFileInjective(msgs[i - 1].key, k);
    assert msgs[i - 1].key == k;
    var file := ChapterFile(ChapterName(k));
    assert file in files && files[file] == ChapterText(pre, k, pict);
    assert ChapterText(pre, k, pict) == Opening(k) + ChapterBlocks(pre, k, pict);
    ChapterBlocksNext(msgs, i, k, pict);
    assert ChapterBlocks(msgs[..i + 1], k, pict) == ChapterBlocks(pre, k, pict) + Contribution(msgs[i], pict);
    assert ChapterText(msgs[..i + 1], k, pict) == Opening(k) + ChapterBlocks(msgs[..i + 1], k, pict);
    ConcatAssoc(Opening(k), ChapterBlocks(pre, k, pict), Contribution(msgs[i], pict));
  }

  /** A message that opens a new chapter file starts it with the heading, then its contribution. */
  lemma OpenChapter(msgs: seq<Message>, i: nat, pict: char -> bool)
    requires ValidKeys(msgs) && Chronological(msgs) && i < |msgs|
    requires i == 0 || ChapterName(msgs[i - 1].key) != ChapterName(msgs[i].key)
    ensures Opening(msgs[i].key) + Contribution(msgs[i], pict) == ChapterText(msgs[..i + 1], msgs[i].key, pict)
  {
    var k := msgs[i].key;
    if i > 0 {
      FirstOfMonth(msgs, i);
    }
    ChapterBlocksAbsent(msgs[..i], k, pict);
    ChapterBlocksNext(msgs, i, k, pict);
    assert ChapterBlocks(msgs[..i + 1], k, pict) == Contribution(msgs[i], pict);
    assert ChapterText(msgs[..i + 1], k, pict) == Opening(k) + ChapterBlocks(msgs[..i + 1], k, pict);
  }

  /** `ProcessMessage` on the next message keeps every chapter file equal to its chapter text. */
  lemma ProcessStep(msgs: seq<Message>, i: nat, files: map<string, string>, pict: char -> bool)
    requires ValidKeys(msgs) && i < |msgs|
    requires FilesMatch(files, msgs, i, pict)
    ensures var m := msgs[i];
      var file := ChapterFile(ChapterName(m.key));
      FilesMatch(files[file := ChapterText(msgs[..i + 1], m.key, pict)], msgs, i + 1, pict)
  {
    var k := msgs[i].key;
    var file := ChapterFile(ChapterName(k));
    var updated := files[file := ChapterText(msgs[..i + 1], k, pict)];
    forall j | 0 <= j < i + 1
      ensures ChapterFile(ChapterName(msgs[j].key)) in updated
      ensures updated[ChapterFile(ChapterName(msgs[j].key))] == ChapterText(msgs[..i + 1], msgs[j].key, pict)
    {
      var kj := msgs[j].key;
      ChapterFileInjective(kj, k);
      if kj != k {
        var fj := ChapterFile(ChapterName(kj));
        assert fj in files && files[fj] == ChapterText(msgs[..i], kj, pict);
        ChapterBlocksNext(msgs, i, kj, pict);
      }
    }
  }

  /** Rewriting the open chapter's file leaves the set of files as it was. */
  lemma RewriteKeepsFiles(files: map<string, string>, names: seq<string>, name: string, text: string)
    requires files.Keys == set n | n in names :: ChapterFile(n)
    requires name in names
    ensures files[ChapterFile(name) := text].Keys == set n | n in names :: ChapterFile(n)
  {
  }

  /** Creating a new chapter's file adds that file to the set. */
  lemma CreateAddsFile(files: map<string, string>, names: seq<string>, name: string, text: string)
    requires files.Keys == set n | n in names :: ChapterFile(n)
    ensures files[ChapterFile(name) := text].Keys == set n | n in names + [name] :: ChapterFile(n)
  {
    assert (set n | n in names + [name] :: ChapterFile(n)) == (set n | n in names :: ChapterFile(n)) + {ChapterFile(name)};
  }

  /** Writing `main.tex` keeps every chapter file, since no chapter file is called `main.tex`. */
  lemma MainKeepsChapters(msgs: seq<Message>, files: map<string, string>, main: string, pict: char -> bool)
    requires ValidKeys(msgs)
    requires forall j :: 0 <= j < |msgs| ==>
      var file := ChapterFile(ChapterName(msgs[j].key));
      file in files && files[file] == ChapterText(msgs, msgs[j].key, pict)
    ensures forall j :: 0 <= j < |msgs| ==>
      var file := ChapterFile(ChapterName(msgs[j].key));
      file in files[MainFile := main] && files[MainFile := main][file] == ChapterText(msgs, msgs[j].key, pict)
  {
    forall j | 0 <= j < |msgs|
      ensures ChapterFile(ChapterName(msgs[j].key)) != MainFile
    {
      assert ChapterFile(ChapterName(msgs[j].key))[0] != MainFile[0];
    }
  }

  /** The files after the export: `main.tex` and one file per chapter. */
  lemma MainFileAdded(files: map<string, string>, chapters: seq<string>, main: string)
    requires files.Keys == set n | n in chapters :: ChapterFile(n)
    ensures files[MainFile := main].Keys == {MainFile} + set n | n in chapters :: ChapterFile(n)
  {
  }

  // ---------------------------------------------------------------------
  // The whole export

  /**
   * `iter_messages` from the query on: `rows` is the message table in date
   * order, `chats` the chat table. Returns the written files (chapter files
   * and `main.tex`) and the chapter list.
   */
  method IterMessages(rows: seq<Message>, chats: seq<Chat>, chatIdentifier: string,
                      template: string, config: Config, pict: char -> bool)
    returns (files: map<string, string>, chapters: seq<string>)
    requires Chronological(rows)
    requires ValidKeys(BookMessages(rows, chats, chatIdentifier))
    ensures var msgs := BookMessages(rows, chats, chatIdentifier);
      chapters == Collapse(ChapterNames(msgs))
    ensures forall i, j :: 0 <= i < j < |chapters| ==> chapters[i] != chapters[j]
    ensures files.Keys == {MainFile} + set n | n in chapters :: ChapterFile(n)
    ensures var msgs := BookMessages(rows, chats, chatIdentifier);
      forall j :: 0 <= j < |msgs| ==>
        var file := ChapterFile(ChapterName(msgs[j].key));
        file in files && files[file] == ChapterText(msgs, msgs[j].key, pict)
    ensures MainFile in files && files[MainFile] == MainTex(template, config, chapters)
  {
    var msgs := BookMessages(rows, chats, chatIdentifier);
    BookMessagesInOrder(rows, chats, chatIdentifier);
    var book := new Book();
    book.WriteChapters(msgs, pict);
    ChaptersDistinct(msgs);
    ghost var chapterFiles := book.files;
    book.WriteMainTex(template, config);
    MainKeepsChapters(msgs, chapterFiles, book.files[MainFile], pict);
    MainFileAdded(chapterFiles, book.chapters, book.files[MainFile]);
    files := book.files;
    chapters := book.chapters;
  }

  /** The `\include` lines of the chapter list read back as that list. */
  lemma ChapterIncludesRoundTrip(msgs: seq<Message>)
    requires ValidKeys(msgs)
    ensures var chapters := Collapse(ChapterNames(msgs));
      ParseIncludes(Includes(chapters)) == Some(chapters)
  {
    var names := ChapterNames(msgs);
    CollapseElements(names);
    forall n, k | n in Collapse(names) && 0 <= k < |n|
      ensures n[k] != '}'
    {
      var i :| 0 <= i < |names| && names[i] == n;
      ChapterNameNoBrace(msgs[i].key);
    }
    IncludesRoundTrip(Collapse(names));
  }
}
