/**
 * src/main.rs, `iter_messages`: one chapter per calendar month, named
 * `ch-%Y-%m`, headed by `%B %Y`, holding the blocks of that month's messages.
 */
module Chapters {
  import opened Wrappers
  import opened Strings
  import opened Messages
  import opened Render

  /** Months the `%Y`/`%m` formats print as four and two digits. */
  predicate ValidKey(k: ChapterKey) {
    0 <= k.year <= 9999 && 1 <= k.month <= 12
  }

  predicate ValidKeys(msgs: seq<Message>) {
    forall i :: 0 <= i < |msgs| ==> ValidKey(msgs[i].key)
  }

  /** `format("ch-%Y-%m")`. */
  function ChapterName(k: ChapterKey): string
    requires ValidKey(k)
  {
    "ch-" + PadLeft(k.year, 4) + "-" + PadLeft(k.month, 2)
  }

  /** A chapter name is `ch-`, digits, `-` and digits: it holds no closing brace. */
  lemma ChapterNameNoBrace(k: ChapterKey)
    requires ValidKey(k)
    ensures forall i :: 0 <= i < |ChapterName(k)| ==> ChapterName(k)[i] != '}'
  {
    var year, month := PadLeft(k.year, 4), PadLeft(k.month, 2);
    var name := ChapterName(k);
    forall i | 0 <= i < |name|
      ensures name[i] != '}'
    {
      if 3 <= i < 3 + |year| {
        assert name[i] == year[i - 3];
      } else if 4 + |year| <= i {
        assert name[i] == month[i - 4 - |year|];
      }
    }
  }

  /** The chapter's file name inside the output directory. */
  function ChapterFile(name: string): string {
    name + ".tex"
  }

  /** `%B`: the full English month name. */
  function MonthName(month: int): string
    requires 1 <= month <= 12
  {
    match month
    case 1 => "January"
    case 2 => "February"
    case 3 => "March"
    case 4 => "April"
    case 5 => "May"
    case 6 => "June"
    case 7 => "July"
    case 8 => "August"
    case 9 => "September"
    case 10 => "October"
    case 11 => "November"
    case _ => "December"
  }

  /** `format("%B %Y")`, the chapter title. */
  function Heading(k: ChapterKey): string
    requires ValidKey(k)
  {
    MonthName(k.month) + " " + PadLeft(k.year, 4)
  }

  /** What a freshly created chapter file starts with. */
  function Opening(k: ChapterKey): string
    requires ValidKey(k)
  {
    "\\chapter{" + Heading(k) + "}\n\n"
  }

  /** The block a message contributes; the extra-space flag is always off. */
  function MessageBlock(m: Message, pict: char -> bool): string {
    Block(ToLatex(m), false, pict)
  }

  /** What a message adds to its chapter: its block, if its text could be generated. */
  function Contribution(m: Message, pict: char -> bool): string {
    if m.generated then MessageBlock(m, pict) else ""
  }

  /** The blocks of the messages of month `k` whose text could be generated, in order. */
  function ChapterBlocks(msgs: seq<Message>, k: ChapterKey, pict: char -> bool): string
    decreases |msgs|
  {
    if msgs == [] then ""
    else
      var last := msgs[|msgs| - 1];
      ChapterBlocks(msgs[..|msgs| - 1], k, pict) + if last.key == k then Contribution(last, pict) else ""
  }

  /** The full text of the chapter file for month `k`. */
  function ChapterText(msgs: seq<Message>, k: ChapterKey, pict: char -> bool): string
    requires ValidKey(k)
  {
    Opening(k) + ChapterBlocks(msgs, k, pict)
  }

  /** The chapter name of every message, in order. */
  function ChapterNames(msgs: seq<Message>): (names: seq<string>)
    requires ValidKeys(msgs)
    ensures |names| == |msgs|
    ensures forall i {:trigger names[i]} :: 0 <= i < |msgs| ==> names[i] == ChapterName(msgs[i].key)
  {
    if msgs == [] then [] else [ChapterName(msgs[0].key)] + ChapterNames(msgs[1..])
  }

  /** A list with every run of equal neighbours reduced to one element. */
  function Collapse<T(==)>(xs: seq<T>): seq<T>
    decreases |xs|
  {
    if |xs| <= 1 then xs
    else if xs[|xs| - 2] == xs[|xs| - 1] then Collapse(xs[..|xs| - 1])
    else Collapse(xs[..|xs| - 1]) + [xs[|xs| - 1]]
  }

  // ---------------------------------------------------------------------
  // Chapter names identify months

  /** Reads `ch-YYYY-MM` back. */
  function ParseChapterName(s: string): Option<ChapterKey> {
    if |s| == 10 && s[..3] == "ch-" && s[7] == '-'
      && (forall k :: 3 <= k < 7 ==> IsDigit(s[k])) && IsDigit(s[8]) && IsDigit(s[9])
    then Some(ChapterKey(DecimalValue(s[3..7]), DecimalValue(s[8..10])))
    else None
  }

  lemma PadLeftWidth(n: nat, width: nat)
    requires width == 4 || width == 2
    requires width == 4 ==> n < 10000
    requires width == 2 ==> n < 100
    ensures |PadLeft(n, width)| == width
  {
    NatToStringLength(n);
  }

  /** The chapter name of a month reads back as that month. */
  lemma ChapterNameRoundTrip(k: ChapterKey)
    requires ValidKey(k)
    ensures ParseChapterName(ChapterName(k)) == Some(k)
  {
    var y := PadLeft(k.year, 4);
    var m := PadLeft(k.month, 2);
    PadLeftWidth(k.year, 4);
    PadLeftWidth(k.month, 2);
    PadLeftRoundTrip(k.year, 4);
    PadLeftRoundTrip(k.month, 2);
    var s := ChapterName(k);
    assert s == "ch-" + y + "-" + m;
    assert s[..3] == "ch-";
    assert s[3..7] == y;
    assert s[8..10] == m;
    assert s[8] == m[0] && s[9] == m[1];
    assert forall j :: 3 <= j < 7 ==> s[j] == y[j - 3];
  }

  /** Different months get different chapter files. */
  lemma ChapterFileInjective(a: ChapterKey, b: ChapterKey)
    requires ValidKey(a) && ValidKey(b)
    ensures ChapterName(a) == ChapterName(b) <==> a == b
    ensures ChapterFile(ChapterName(a)) == ChapterFile(ChapterName(b)) <==> a == b
  {
    ChapterNameRoundTrip(a);
    ChapterNameRoundTrip(b);
    var fa := ChapterFile(ChapterName(a));
    var fb := ChapterFile(ChapterName(b));
    if fa == fb {
      assert ChapterName(a) == fa[..|fa| - 4];
      assert ChapterName(b) == fb[..|fb| - 4];
    }
  }

  // ---------------------------------------------------------------------
  // Chapter lists

  lemma {:induction false} CollapseElements<T>(xs: seq<T>)
    ensures forall x :: x in Collapse(xs) <==> x in xs
    decreases |xs|
  {
    if |xs| > 1 {
      var init := xs[..|xs| - 1];
      CollapseElements(init);
      assert xs == init + [xs[|xs| - 1]];
      if xs[|xs| - 2] == xs[|xs| - 1] {
        assert xs[|xs| - 1] in init;
      }
    }
  }

  lemma CollapseIndex<T>(xs: seq<T>, i: int)
    requires 0 <= i < |Collapse(xs)|
    ensures exists j :: 0 <= j < |xs| && xs[j] == Collapse(xs)[i]
  {
    CollapseElements(xs);
    assert Collapse(xs)[i] in Collapse(xs);
  }

  lemma {:induction false} CollapseLast<T>(xs: seq<T>)
    requires xs != []
    ensures Collapse(xs) != [] && Collapse(xs)[|Collapse(xs)| - 1] == xs[|xs| - 1]
    decreases |xs|
  {
    if |xs| > 1 {
      CollapseLast(xs[..|xs| - 1]);
    }
  }

  /** Collapsing one more element: it is dropped when it repeats the last one. */
  lemma CollapseSnoc<T>(xs: seq<T>, x: T)
    ensures xs != [] && xs[|xs| - 1] == x ==> Collapse(xs + [x]) == Collapse(xs)
    ensures !(xs != [] && xs[|xs| - 1] == x) ==> Collapse(xs + [x]) == Collapse(xs) + [x]
  {
    var ys := xs + [x];
    assert ys[..|ys| - 1] == xs;
  }

  /** The first `n` elements with runs reduced to one, built one element at a time. */
  function RunsUpTo<T(==)>(xs: seq<T>, n: nat): seq<T>
    requires n <= |xs|
  {
    if n == 0 then []
    else if n > 1 && xs[n - 2] == xs[n - 1] then RunsUpTo(xs, n - 1)
    else RunsUpTo(xs, n - 1) + [xs[n - 1]]
  }

  /** The last run so far is the run of the last element. */
  lemma {:induction false} RunsUpToLast<T>(xs: seq<T>, n: nat)
    requires 0 < n <= |xs|
    ensures RunsUpTo(xs, n) != [] && RunsUpTo(xs, n)[|RunsUpTo(xs, n)| - 1] == xs[n - 1]
    decreases n
  {
    if n > 1 && xs[n - 2] == xs[n - 1] {
      RunsUpToLast(xs, n - 1);
    }
  }

  /** Building element by element agrees with collapsing the prefix. */
  lemma {:induction false} RunsUpToCollapse<T>(xs: seq<T>, n: nat)
    requires n <= |xs|
    ensures RunsUpTo(xs, n) == Collapse(xs[..n])
    decreases n
  {
    if n > 0 {
      RunsUpToCollapse(xs, n - 1);
      var prev := xs[..n - 1];
      assert xs[..n] == prev + [xs[n - 1]];
      CollapseSnoc(prev, xs[n - 1]);
      if n > 1 {
        assert prev[|prev| - 1] == xs[n - 2];
      }
    }
  }

  /** Running over the whole list collapses it. */
  lemma RunsUpToAll<T>(xs: seq<T>)
    ensures RunsUpTo(xs, |xs|) == Collapse(xs)
  {
    RunsUpToCollapse(xs, |xs|);
    assert xs[..|xs|] == xs;
  }

  /** No two neighbouring chapters have the same name. */
  lemma {:induction false} CollapseNoRepeats<T>(xs: seq<T>)
    ensures forall i :: 0 <= i < |Collapse(xs)| - 1 ==> Collapse(xs)[i] != Collapse(xs)[i + 1]
    decreases |xs|
  {
    if |xs| > 1 {
      var init := xs[..|xs| - 1];
      CollapseNoRepeats(init);
      CollapseLast(init);
    }
  }

  /** Equal elements stand next to each other. */
  predicate Grouped<T(==)>(xs: seq<T>) {
    forall i, j, k :: 0 <= i < j < k < |xs| && xs[i] == xs[k] ==> xs[j] == xs[i]
  }

  /** Collapsing a grouped list leaves every element once. */
  lemma {:induction false} CollapseDistinct<T>(xs: seq<T>)
    requires Grouped(xs)
    ensures forall i, j :: 0 <= i < j < |Collapse(xs)| ==> Collapse(xs)[i] != Collapse(xs)[j]
    decreases |xs|
  {
    if |xs| > 1 {
      var n := |xs| - 1;
      var init := xs[..n];
      assert Grouped(init) by {
        forall i, j, k | 0 <= i < j < k < |init| && init[i] == init[k]
          ensures init[j] == init[i]
        {
          assert xs[i] == xs[k];
        }
      }
      CollapseDistinct(init);
      if xs[n - 1] != xs[n] {
        var c := Collapse(init);
        forall i | 0 <= i < |c|
          ensures c[i] != xs[n]
        {
          CollapseIndex(init, i);
          var j :| 0 <= j < n && init[j] == c[i];
        }
      }
    }
  }

  /** In date order, the messages of one month stand next to each other. */
  lemma NamesGrouped(msgs: seq<Message>)
    requires ValidKeys(msgs) && Chronological(msgs)
    ensures Grouped(ChapterNames(msgs))
  {
    var names := ChapterNames(msgs);
    forall i, j, k | 0 <= i < j < k < |names| && names[i] == names[k]
      ensures names[j] == names[i]
    {
      ChapterFileInjective(msgs[i].key, msgs[k].key);
      ChapterFileInjective(msgs[i].key, msgs[j].key);
      assert KeyLe(msgs[i].key, msgs[j].key) && KeyLe(msgs[j].key, msgs[k].key);
    }
  }

  /** Messages in date order open every month's chapter exactly once. */
  lemma ChaptersDistinct(msgs: seq<Message>)
    requires ValidKeys(msgs) && Chronological(msgs)
    ensures var c := Collapse(ChapterNames(msgs));
      forall i, j :: 0 <= i < j < |c| ==> c[i] != c[j]
  {
    NamesGrouped(msgs);
    CollapseDistinct(ChapterNames(msgs));
  }

  /** A month with no message has only its opening. */
  lemma {:induction false} ChapterBlocksAbsent(msgs: seq<Message>, k: ChapterKey, pict: char -> bool)
    requires forall i :: 0 <= i < |msgs| ==> msgs[i].key != k
    ensures ChapterBlocks(msgs, k, pict) == ""
    decreases |msgs|
  {
    if msgs != [] {
      ChapterBlocksAbsent(msgs[..|msgs| - 1], k, pict);
    }
  }

  /** Taking one more message changes only its own month's chapter, by appending its contribution. */
  lemma ChapterBlocksNext(msgs: seq<Message>, i: nat, k: ChapterKey, pict: char -> bool)
    requires i < |msgs|
    ensures msgs[i].key == k ==> ChapterBlocks(msgs[..i + 1], k, pict) == ChapterBlocks(msgs[..i], k, pict) + Contribution(msgs[i], pict)
    ensures msgs[i].key != k ==> ChapterBlocks(msgs[..i + 1], k, pict) == ChapterBlocks(msgs[..i], k, pict)
  {
    assert msgs[..i + 1][..i] == msgs[..i];
    if msgs[i].key != k {
      assert ChapterBlocks(msgs[..i], k, pict) + "" == ChapterBlocks(msgs[..i], k, pict);
    }
  }

  // Partition of the messages among the chapters

  /** Every block of `blocks`, one after another. */
  function ConcatAll(blocks: seq<string>): string
    decreases |blocks|
  {
    if blocks == [] then "" else ConcatAll(blocks[..|blocks| - 1]) + blocks[|blocks| - 1]
  }

  /** The blocks labelled `l`, in order. */
  function Gather<T(==)>(labels: seq<T>, blocks: seq<string>, l: T): string
    requires |labels| == |blocks|
    decreases |labels|
  {
    if labels == [] then ""
    else
      var n := |labels| - 1;
      Gather(labels[..n], blocks[..n], l) + if labels[n] == l then blocks[n] else ""
  }

  /** The blocks of each label of `ls` gathered, one label after another. */
  function GatherInOrder<T(==)>(ls: seq<T>, labels: seq<T>, blocks: seq<string>): string
    requires |labels| == |blocks|
    decreases |ls|
  {
    if ls == [] then "" else GatherInOrder(ls[..|ls| - 1], labels, blocks) + Gather(labels, blocks, ls[|ls| - 1])
  }

  /** A label that labels nothing gathers nothing. */
  lemma {:induction false} GatherAbsent<T>(labels: seq<T>, blocks: seq<string>, l: T)
    requires |labels| == |blocks| && l !in labels
    ensures Gather(labels, blocks, l) == ""
    decreases |labels|
  {
    if labels != [] {
      var n := |labels| - 1;
      assert labels[..n] + [labels[n]] == labels;
      GatherAbsent(labels[..n], blocks[..n], l);
    }
  }

  /** Labels other than the last one gather the same without the last block. */
  lemma {:induction false} GatherInOrderOther<T>(ls: seq<T>, labels: seq<T>, blocks: seq<string>)
    requires |labels| == |blocks| && labels != [] && labels[|labels| - 1] !in ls
    ensures var n := |labels| - 1;
      GatherInOrder(ls, labels, blocks) == GatherInOrder(ls, labels[..n], blocks[..n])
    decreases |ls|
  {
    if ls != [] {
      var m := |ls| - 1;
      assert ls[..m] + [ls[m]] == ls;
      GatherInOrderOther(ls[..m], labels, blocks);
    }
  }

  /** Gathering for the last label once more, last, picks up the last block. */
  lemma GatherInOrderSnoc<T>(ls: seq<T>, labels: seq<T>, blocks: seq<string>)
    requires |labels| == |blocks| && labels != [] && labels[|labels| - 1] !in ls
    ensures var n := |labels| - 1;
      GatherInOrder(ls + [labels[n]], labels, blocks)
      == GatherInOrder(ls, labels[..n], blocks[..n]) + Gather(labels[..n], blocks[..n], labels[n]) + blocks[n]
  {
    assert (ls + [labels[|labels| - 1]])[..|ls|] == ls;
    GatherInOrderOther(ls, labels, blocks);
  }

  /**
   * Gathering, label by label in the order in which they first appear, the
   * blocks of a grouped labelling gives back every block once, in order.
   */
  lemma {:induction false} GroupedPartition<T>(labels: seq<T>, blocks: seq<string>)
    requires |labels| == |blocks| && Grouped(labels)
    ensures GatherInOrder(Collapse(labels), labels, blocks) == ConcatAll(blocks)
    decreases |labels|
  {
    if labels != [] {
      var n := |labels| - 1;
      var init := labels[..n];
      GroupedPrefix(labels);
      GroupedPartition(init, blocks[..n]);
      if n > 0 && labels[n - 1] == labels[n] {
        CollapseLastOnce(init);
        PartitionSameRun(labels, blocks);
      } else {
        SameRunStart(labels);
        CollapseElements(init);
        PartitionNewRun(labels, blocks);
      }
    }
  }

  lemma GroupedPrefix<T>(xs: seq<T>)
    requires Grouped(xs) && xs != []
    ensures Grouped(xs[..|xs| - 1])
  {
    var init := xs[..|xs| - 1];
    forall i, j, k | 0 <= i < j < k < |init| && init[i] == init[k]
      ensures init[j] == init[i]
    {
      assert xs[i] == xs[k];
    }
  }

  /** The last element of a grouped list stands only at the end of its collapsed list. */
  lemma CollapseLastOnce<T>(xs: seq<T>)
    requires Grouped(xs) && xs != []
    ensures var c := Collapse(xs);
      c != [] && c[|c| - 1] == xs[|xs| - 1] && xs[|xs| - 1] !in c[..|c| - 1]
  {
    var c := Collapse(xs);
    CollapseLast(xs);
    CollapseDistinct(xs);
    var m := |c| - 1;
    forall i | 0 <= i < m
      ensures c[..m][i] != c[m]
    {
      assert c[i] != c[m];
    }
  }

  /** A last label equal to the one before it adds its block to the last chapter gathered. */
  lemma PartitionSameRun<T>(labels: seq<T>, blocks: seq<string>)
    requires |labels| == |blocks| && |labels| > 1
    requires labels[|labels| - 2] == labels[|labels| - 1]
    requires var n := |labels| - 1; var c := Collapse(labels[..n]);
      && c != [] && c[|c| - 1] == labels[n] && labels[n] !in c[..|c| - 1]
      && GatherInOrder(c, labels[..n], blocks[..n]) == ConcatAll(blocks[..n])
    ensures GatherInOrder(Collapse(labels), labels, blocks) == ConcatAll(blocks)
  {
    var n := |labels| - 1;
    var c := Collapse(labels[..n]);
    var m := |c| - 1;
    assert Collapse(labels) == c;
    assert c[..m] + [labels[n]] == c;
    GatherInOrderSnoc(c[..m], labels, blocks);
  }

  /** A last label that differs from the one before it opens a chapter of its own block. */
  lemma PartitionNewRun<T>(labels: seq<T>, blocks: seq<string>)
    requires |labels| == |blocks| && labels != []
    requires !(|labels| > 1 && labels[|labels| - 2] == labels[|labels| - 1])
    requires var n := |labels| - 1; var c := Collapse(labels[..n]);
      && labels[n] !in labels[..n] && labels[n] !in c
      && GatherInOrder(c, labels[..n], blocks[..n]) == ConcatAll(blocks[..n])
    ensures GatherInOrder(Collapse(labels), labels, blocks) == ConcatAll(blocks)
  {
    var n := |labels| - 1;
    var init, x := labels[..n], labels[n];
    var c := Collapse(init);
    assert Collapse(labels) == c + [x];
    GatherInOrderSnoc(c, labels, blocks);
    GatherAbsent(init, blocks[..n], x);
    var g := GatherInOrder(c, init, blocks[..n]);
    assert GatherInOrder(c + [x], labels, blocks) == g + "" + blocks[n];
    assert g + "" == g;
    assert ConcatAll(blocks) == ConcatAll(blocks[..n]) + blocks[n];
  }

  /** In a grouped list, an element that differs from its predecessor is new. */
  lemma SameRunStart<T>(xs: seq<T>)
    requires Grouped(xs) && xs != []
    requires !(|xs| > 1 && xs[|xs| - 2] == xs[|xs| - 1])
    ensures xs[|xs| - 1] !in xs[..|xs| - 1]
  {
    var n := |xs| - 1;
    forall j | 0 <= j < n
      ensures xs[..n][j] != xs[n]
    {
      if j < n - 1 {
        var before, x := xs[n - 1], xs[n];
        assert xs[j] == x ==> before == x;
      }
    }
  }

  /** What every message adds to its chapter, in order. */
  function Contributions(msgs: seq<Message>, pict: char -> bool): (r: seq<string>)
    ensures |r| == |msgs|
    ensures forall i {:trigger r[i]} :: 0 <= i < |msgs| ==> r[i] == Contribution(msgs[i], pict)
  {
    if msgs == [] then [] else [Contribution(msgs[0], pict)] + Contributions(msgs[1..], pict)
  }

  /** The messages whose chapter name is month `k`'s make up month `k`'s blocks. */
  lemma {:induction false} GatherChapterBlocks(msgs: seq<Message>, k: ChapterKey, pict: char -> bool)
    requires ValidKeys(msgs) && ValidKey(k)
    ensures Gather(ChapterNames(msgs), Contributions(msgs, pict), ChapterName(k)) == ChapterBlocks(msgs, k, pict)
    decreases |msgs|
  {
    if msgs != [] {
      var n := |msgs| - 1;
      var init := msgs[..n];
      assert ChapterNames(msgs)[..n] == ChapterNames(init);
      assert Contributions(msgs, pict)[..n] == Contributions(init, pict);
      GatherChapterBlocks(init, k, pict);
      ChapterFileInjective(msgs[n].key, k);
    }
  }

  /**
   * For messages in date order, the chapters' blocks, taken chapter by
   * chapter in the order the chapters are opened, are every message's
   * contribution exactly once and in order: no message is lost, repeated or
   * moved to another chapter.
   */
  lemma ChaptersPartition(msgs: seq<Message>, pict: char -> bool)
    requires ValidKeys(msgs) && Chronological(msgs)
    ensures GatherInOrder(Collapse(ChapterNames(msgs)), ChapterNames(msgs), Contributions(msgs, pict))
      == ConcatAll(Contributions(msgs, pict))
  {
    NamesGrouped(msgs);
    GroupedPartition(ChapterNames(msgs), Contributions(msgs, pict));
  }
}
