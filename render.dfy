/**
 * src/render.rs: turning one message into a LaTeX block.
 */
module Render {
  import opened Wrappers
  import opened Strings
  import opened Escape
  import opened Messages

  /** The struct `LatexMessage`: what `render_message` collects before rendering. */
  datatype LatexMessage = LatexMessage(isFromMe: bool, bodyText: Option<string>, attachmentCount: int, date: string)

  /** The attachment badge `\fbox{N Attachment}` / `\fbox{N Attachments}`. */
  function Badge(count: nat): string {
    "\\fbox{" + NatToString(count) + " Attachment" + (if count == 1 then "" else "s") + "}"
  }

  /** The text inside `\leftmsg{…}` / `\rightmsg{…}`: escaped body, then the badge if there are attachments. */
  function Content(m: LatexMessage, pict: char -> bool): string {
    var text := if m.bodyText.Some? then LatexEscape(m.bodyText.value, pict) else "";
    if m.attachmentCount > 0 then
      text + (if text != "" then "\\enskip" else "") + Badge(m.attachmentCount)
    else text
  }

  /** The rendered block of a message: its date marker, spacing and message line around `Content`. */
  function Block(m: LatexMessage, insertExtraSpace: bool, pict: char -> bool): string {
    Layout(m.date, insertExtraSpace, m.isFromMe, Content(m, pict))
  }

  /** The shape of a block: date marker line, optional spacing line, then the message line. */
  function Layout(date: string, insertExtraSpace: bool, isFromMe: bool, content: string): string {
    "\\markright{" + date + "}\n" + Spacing(insertExtraSpace) + MessageLine(isFromMe, content)
  }

  function Spacing(insertExtraSpace: bool): string {
    if insertExtraSpace then "\\insertextraspace\n" else ""
  }

  /** Own messages are set on the left, received ones on the right. */
  function MessageLine(isFromMe: bool, content: string): string {
    (if isFromMe then "\\leftmsg{" else "\\rightmsg{") + content + "}\n\n"
  }

  /** `LatexMessage::render`, building the block with `push_str` on local strings. */
  method Render(m: LatexMessage, insertExtraSpace: bool, pict: char -> bool) returns (rendered: string)
    ensures rendered == Block(m, insertExtraSpace, pict)
  {
    var content := if m.bodyText.Some? then LatexEscape(m.bodyText.value, pict) else "";
    if m.attachmentCount > 0 {
      if content != "" {
        content := content + "\\enskip";
      }
      content := content + Badge(m.attachmentCount);
    }
    assert content == Content(m, pict);
    rendered := "\\markright{" + m.date + "}\n";
    if insertExtraSpace {
      rendered := rendered + "\\insertextraspace\n";
    }
    assert rendered == "\\markright{" + m.date + "}\n" + Spacing(insertExtraSpace);
    var line := if m.isFromMe then "\\leftmsg{" + content + "}\n\n" else "\\rightmsg{" + content + "}\n\n";
    assert line == MessageLine(m.isFromMe, content);
    rendered := rendered + line;
  }

  // ---------------------------------------------------------------------
  // The segment fold of `render_message`

  /** The text of the last `Text` segment, if any: each one overwrites `body_text`. */
  function LastText(parts: seq<Segment>): Option<string>
    decreases |parts|
  {
    if parts == [] then None
    else if parts[|parts| - 1].Text? then Some(parts[|parts| - 1].text)
    else LastText(parts[..|parts| - 1])
  }

  /** The number of `Attachment` segments: each one increments `attachment_count`. */
  function AttachmentCount(parts: seq<Segment>): nat
    decreases |parts|
  {
    if parts == [] then 0
    else AttachmentCount(parts[..|parts| - 1]) + (if parts[|parts| - 1].Attachment? then 1 else 0)
  }

  /** What `render_message` collects from a message. */
  function ToLatex(msg: Message): LatexMessage {
    LatexMessage(msg.isFromMe, LastText(msg.parts), AttachmentCount(msg.parts), msg.date)
  }

  /** `render_message`: folds the body segments into a `LatexMessage`, then renders it. */
  method RenderMessage(msg: Message, insertExtraSpace: bool, pict: char -> bool) returns (block: string)
    ensures block == Block(ToLatex(msg), insertExtraSpace, pict)
  {
    var parts := msg.parts;
    var bodyText: Option<string> := None;
    var attachmentCount := 0;
    for i := 0 to |parts|
      invariant bodyText == LastText(parts[..i])
      invariant attachmentCount == AttachmentCount(parts[..i])
    {
      assert parts[..i + 1][..i] == parts[..i];
      match parts[i]
      case Text(text) => bodyText := Some(text);
      case Attachment => attachmentCount := attachmentCount + 1;
      case Other =>
    }
    assert parts[..|parts|] == parts;
    block := Render(LatexMessage(msg.isFromMe, bodyText, attachmentCount, msg.date), insertExtraSpace, pict);
  }

  // ---------------------------------------------------------------------
  // Properties of the fold

  /** `LastText` is the text of a `Text` segment after which no `Text` segment follows. */
  lemma {:induction false} LastTextIsLast(parts: seq<Segment>, t: string)
    ensures LastText(parts) == Some(t) <==>
      exists i :: 0 <= i < |parts| && parts[i] == Text(t) && forall j :: i < j < |parts| ==> !parts[j].Text?
    decreases |parts|
  {
    if parts != [] {
      var n := |parts| - 1;
      var init := parts[..n];
      LastTextIsLast(init, t);
      if parts[n].Text? {
        if parts[n] == Text(t) {
          assert parts[n] == Text(t);
        } else {
          forall i | 0 <= i < |parts| && parts[i] == Text(t)
            ensures exists j :: i < j < |parts| && parts[j].Text?
          {
            assert i < n;
          }
        }
      } else {
        if LastText(parts) == Some(t) {
          var i :| 0 <= i < |init| && init[i] == Text(t) && forall j :: i < j < |init| ==> !init[j].Text?;
          assert parts[i] == Text(t) && forall j :: i < j < |parts| ==> !parts[j].Text?;
        }
        if exists i :: 0 <= i < |parts| && parts[i] == Text(t) && forall j :: i < j < |parts| ==> !parts[j].Text? {
          var i :| 0 <= i < |parts| && parts[i] == Text(t) && forall j :: i < j < |parts| ==> !parts[j].Text?;
          assert i < n;
          assert init[i] == Text(t) && forall j :: i < j < |init| ==> !init[j].Text?;
        }
      }
    }
  }

  /** A message has no body text exactly when none of its segments is text. */
  lemma {:induction false} LastTextNone(parts: seq<Segment>)
    ensures LastText(parts) == None <==> forall i :: 0 <= i < |parts| ==> !parts[i].Text?
    decreases |parts|
  {
    if parts != [] {
      var n := |parts| - 1;
      LastTextNone(parts[..n]);
      assert forall i :: 0 <= i < n ==> parts[..n][i] == parts[i];
    }
  }

  /** The attachment count is the number of `Attachment` segments in the body. */
  lemma {:induction false} AttachmentCountIsMultiplicity(parts: seq<Segment>)
    ensures AttachmentCount(parts) == multiset(parts)[Attachment]
    decreases |parts|
  {
    if parts != [] {
      var n := |parts| - 1;
      AttachmentCountIsMultiplicity(parts[..n]);
      assert parts == parts[..n] + [parts[n]];
      assert multiset(parts) == multiset(parts[..n]) + multiset{parts[n]};
    }
  }

  // ---------------------------------------------------------------------
  // The badge can be read back

  /** Reads a badge `\fbox{N Attachment}` or `\fbox{N Attachments}` back; the label must agree with N. */
  function ParseBadge(b: string): Option<nat> {
    if |b| < 6 || b[..6] != "\\fbox{" then None
    else if |b| >= 19 && b[|b| - 13..] == " Attachments}" then
      var digits := b[6..|b| - 13];
      if (forall k :: 0 <= k < |digits| ==> IsDigit(digits[k])) && DecimalValue(digits) != 1 then Some(DecimalValue(digits)) else None
    else if |b| >= 18 && b[|b| - 12..] == " Attachment}" then
      var digits := b[6..|b| - 12];
      if (forall k :: 0 <= k < |digits| ==> IsDigit(digits[k])) && DecimalValue(digits) == 1 then Some(1) else None
    else None
  }

  /** The badge states the attachment count, singular exactly when the count is one. */
  lemma BadgeRoundTrip(count: nat)
    ensures ParseBadge(Badge(count)) == Some(count)
  {
    var digits := NatToString(count);
    NatToStringRoundTrip(count);
    var b := Badge(count);
    assert b[..6] == "\\fbox{";
    if count == 1 {
      assert b == "\\fbox{" + digits + " Attachment}";
      assert b[|b| - 13..] != " Attachments}" by {
        assert b[|b| - 2] == 't';
      }
      assert b[|b| - 12..] == " Attachment}";
      assert b[6..|b| - 12] == digits;
    } else {
      assert b == "\\fbox{" + digits + " Attachments}";
      assert b[|b| - 13..] == " Attachments}";
      assert b[6..|b| - 13] == digits;
    }
  }

  // ---------------------------------------------------------------------
  // The block can be read back

  /** The fields a block is made of. */
  datatype BlockParts = BlockParts(date: string, insertExtraSpace: bool, isFromMe: bool, content: string)

  /** Reads a block: the date marker, then the rest. */
  function ParseBlock(b: string): Option<BlockParts> {
    if |b| < 11 || b[..11] != "\\markright{" then None else ParseDated(b[11..])
  }

  /** Splits what follows `\markright{` at its first `}` + newline. */
  function ParseDated(rest: string): Option<BlockParts> {
    match Find(rest, "}\n")
    case None => None
    case Some(i) => ParseBody(rest[..i], rest[i + 2..])
  }

  /** Reads the optional spacing line and the message line that follow the date marker. */
  function ParseBody(date: string, tail: string): Option<BlockParts> {
    var extra := |tail| >= 18 && tail[..18] == "\\insertextraspace\n";
    match ParseLine(if extra then tail[18..] else tail)
    case None => None
    case Some((isFromMe, content)) => Some(BlockParts(date, extra, isFromMe, content))
  }

  /** Reads `\leftmsg{…}` or `\rightmsg{…}` followed by a blank line. */
  function ParseLine(line: string): Option<(bool, string)> {
    if |line| >= 12 && line[..9] == "\\leftmsg{" && line[|line| - 3..] == "}\n\n" then
      Some((true, line[9..|line| - 3]))
    else if |line| >= 13 && line[..10] == "\\rightmsg{" && line[|line| - 3..] == "}\n\n" then
      Some((false, line[10..|line| - 3]))
    else None
  }

  /** The first `}` + newline after a date without `}` is the one that closes it. */
  lemma DateCloser(date: string, tail: string)
    requires forall k :: 0 <= k < |date| ==> date[k] != '}'
    ensures ParseDated(date + "}\n" + tail) == ParseBody(date, tail)
  {
    var close := "}\n";
    FindAfter(date, close, tail);
    SplitAt(date + close, tail);
    ConcatAssoc(date, close, tail);
    SplitAt(date, close + tail);
  }

  lemma MessageLineRoundTrip(isFromMe: bool, content: string)
    ensures ParseLine(MessageLine(isFromMe, content)) == Some((isFromMe, content))
  {
    var line := MessageLine(isFromMe, content);
    assert line[|line| - 3..] == "}\n\n";
    if isFromMe {
      assert line[..9] == "\\leftmsg{";
      assert line[9..|line| - 3] == content;
    } else {
      assert line[..9] != "\\leftmsg{" by {
        assert line[1] == 'r';
      }
      assert line[..10] == "\\rightmsg{";
      assert line[10..|line| - 3] == content;
    }
  }

  /** The spacing line is present exactly when it was asked for; what follows it is the message line. */
  lemma BodyRoundTrip(date: string, insertExtraSpace: bool, isFromMe: bool, content: string)
    ensures ParseBody(date, Spacing(insertExtraSpace) + MessageLine(isFromMe, content))
      == Some(BlockParts(date, insertExtraSpace, isFromMe, content))
  {
    var line := MessageLine(isFromMe, content);
    var tail := Spacing(insertExtraSpace) + line;
    MessageLineRoundTrip(isFromMe, content);
    if insertExtraSpace {
      SplitAt("\\insertextraspace\n", line);
    } else {
      assert tail == line;
      NoSpacingLine(isFromMe, content);
    }
  }

  /** A message line is never mistaken for the spacing line. */
  lemma NoSpacingLine(isFromMe: bool, content: string)
    ensures var line := MessageLine(isFromMe, content);
      |line| < 18 || line[..18] != "\\insertextraspace\n"
  {
    var line := MessageLine(isFromMe, content);
    assert line[1] == (if isFromMe then 'l' else 'r');
    if |line| >= 18 {
      assert line[..18][1] != "\\insertextraspace\n"[1];
    }
  }

  /** A block is unambiguous: its date, spacing flag, side and content can be read back from it. */
  lemma LayoutRoundTrip(date: string, insertExtraSpace: bool, isFromMe: bool, content: string)
    requires forall k :: 0 <= k < |date| ==> date[k] != '}'
    ensures ParseBlock(Layout(date, insertExtraSpace, isFromMe, content))
      == Some(BlockParts(date, insertExtraSpace, isFromMe, content))
  {
    var open, close := "\\markright{", "}\n";
    var tail := Spacing(insertExtraSpace) + MessageLine(isFromMe, content);
    var rest := date + close + tail;
    ConcatAssoc(open + date + close, Spacing(insertExtraSpace), MessageLine(isFromMe, content));
    ConcatAssoc(open, date, close);
    ConcatAssoc(open, date + close, tail);
    assert Layout(date, insertExtraSpace, isFromMe, content) == open + rest;
    SplitAt(open, rest);
    DateCloser(date, tail);
    BodyRoundTrip(date, insertExtraSpace, isFromMe, content);
  }

  /** Hence a rendered message can be read back, given that its date marker contains no `}`. */
  lemma BlockRoundTrip(m: LatexMessage, insertExtraSpace: bool, pict: char -> bool)
    requires forall k :: 0 <= k < |m.date| ==> m.date[k] != '}'
    ensures ParseBlock(Block(m, insertExtraSpace, pict))
      == Some(BlockParts(m.date, insertExtraSpace, m.isFromMe, Content(m, pict)))
  {
    LayoutRoundTrip(m.date, insertExtraSpace, m.isFromMe, Content(m, pict));
  }
}
