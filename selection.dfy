/**
 * src/main.rs, `iter_messages`: finding the conversation's chats and
 * selecting the messages that go into the book.
 */
module Selection {
  import opened Messages
  import opened Strings

  /** The chats whose identifier is exactly the requested one, in table order. */
  function ResolveChats(chats: seq<Chat>, chatIdentifier: string): (r: seq<Chat>)
    ensures forall c :: c in r <==> c in chats && c.chatIdentifier == chatIdentifier
    ensures forall c :: c in r ==> multiset(r)[c] == multiset(chats)[c]
    decreases |chats|
  {
    if chats == [] then []
    else
      var init := chats[..|chats| - 1];
      var last := chats[|chats| - 1];
      assert chats == init + [last];
      ResolveChats(init, chatIdentifier) + if last.chatIdentifier == chatIdentifier then [last] else []
  }

  /** The rowids of the resolved chats, in the same order. */
  function ChatIds(chats: seq<Chat>): (ids: seq<int>)
    ensures |ids| == |chats|
    ensures forall i :: 0 <= i < |chats| ==> ids[i] == chats[i].rowid
  {
    if chats == [] then [] else [chats[0].rowid] + ChatIds(chats[1..])
  }

  /**
   * The message query: the rows, already in date order, that belong to one
   * of the chats `ids`.
   */
  function SelectMessages(rows: seq<Message>, ids: seq<int>): (r: seq<Message>)
    ensures forall m :: m in r <==> m in rows && m.chatId in ids
    ensures forall m :: m in r ==> multiset(r)[m] == multiset(rows)[m]
    decreases |rows|
  {
    if rows == [] then []
    else
      var init := rows[..|rows| - 1];
      var last := rows[|rows| - 1];
      assert rows == init + [last];
      SelectMessages(init, ids) + if last.chatId in ids then [last] else []
  }

  /** Selecting from a concatenation selects from each part: the kept rows stay in the order of `rows`. */
  lemma {:induction false} SelectMessagesAppend(a: seq<Message>, b: seq<Message>, ids: seq<int>)
    ensures SelectMessages(a + b, ids) == SelectMessages(a, ids) + SelectMessages(b, ids)
    decreases |b|
  {
    if b == [] {
      assert a + b == a;
    } else {
      var init := b[..|b| - 1];
      var last := b[|b| - 1];
      var tail := if last.chatId in ids then [last] else [];
      SelectMessagesAppend(a, init, ids);
      assert (a + b)[..|a + b| - 1] == a + init;
      assert (a + b)[|a + b| - 1] == last;
      assert SelectMessages(a + b, ids) == SelectMessages(a + init, ids) + tail;
      assert SelectMessages(b, ids) == SelectMessages(init, ids) + tail;
      ConcatAssoc(SelectMessages(a, ids), SelectMessages(init, ids), tail);
    }
  }

  /** Reactions (tapbacks), group announcements and SharePlay events are not printed. */
  predicate Printable(m: Message) {
    !m.isReaction && !m.isAnnouncement && !m.isSharePlay
  }

  /** The messages that make it into the book, in their original order. */
  function FilterMessages(msgs: seq<Message>): (r: seq<Message>)
    ensures forall m :: m in r <==> m in msgs && Printable(m)
    ensures forall m :: m in r ==> multiset(r)[m] == multiset(msgs)[m]
    decreases |msgs|
  {
    if msgs == [] then []
    else
      var init := msgs[..|msgs| - 1];
      var last := msgs[|msgs| - 1];
      assert msgs == init + [last];
      FilterMessages(init) + if Printable(last) then [last] else []
  }

  /** Filtering a concatenation filters each part: the relative order of kept messages is unchanged. */
  lemma {:induction false} FilterMessagesAppend(a: seq<Message>, b: seq<Message>)
    ensures FilterMessages(a + b) == FilterMessages(a) + FilterMessages(b)
    decreases |b|
  {
    if b == [] {
      assert a + b == a;
    } else {
      var init := b[..|b| - 1];
      var last := b[|b| - 1];
      var tail := if Printable(last) then [last] else [];
      FilterMessagesAppend(a, init);
      assert (a + b)[..|a + b| - 1] == a + init;
      assert (a + b)[|a + b| - 1] == last;
      assert FilterMessages(a + b) == FilterMessages(a + init) + tail;
      assert FilterMessages(b) == FilterMessages(init) + tail;
      ConcatAssoc(FilterMessages(a), FilterMessages(init), tail);
    }
  }

  /** Filtering twice is filtering once. */
  lemma {:induction false} FilterMessagesIdempotent(msgs: seq<Message>)
    ensures FilterMessages(FilterMessages(msgs)) == FilterMessages(msgs)
    decreases |msgs|
  {
    if msgs != [] {
      var init := msgs[..|msgs| - 1];
      var last := msgs[|msgs| - 1];
      FilterMessagesIdempotent(init);
      FilterMessagesAppend(FilterMessages(init), if Printable(last) then [last] else []);
    }
  }

  /** The message query stops after this many rows. */
  const QueryLimit: nat := 100000

  /** The message query: selection by chat, cut off at `QueryLimit` rows. */
  function QueryMessages(rows: seq<Message>, ids: seq<int>): (r: seq<Message>)
    ensures |r| <= QueryLimit && |r| <= |SelectMessages(rows, ids)|
    ensures r == SelectMessages(rows, ids)[..|r|]
    ensures |r| < QueryLimit ==> r == SelectMessages(rows, ids)
  {
    var selected := SelectMessages(rows, ids);
    if |selected| > QueryLimit then selected[..QueryLimit] else selected
  }

  /** The messages of the conversation `chatIdentifier` that are printed, in query order. */
  function BookMessages(rows: seq<Message>, chats: seq<Chat>, chatIdentifier: string): seq<Message> {
    FilterMessages(QueryMessages(rows, ChatIds(ResolveChats(chats, chatIdentifier))))
  }

  /** Rows read in date order give the printed messages in date order. */
  lemma BookMessagesInOrder(rows: seq<Message>, chats: seq<Chat>, chatIdentifier: string)
    requires Chronological(rows)
    ensures Chronological(BookMessages(rows, chats, chatIdentifier))
  {
    var ids := ChatIds(ResolveChats(chats, chatIdentifier));
    SelectKeepsOrder(rows, ids);
    var q := QueryMessages(rows, ids);
    assert Chronological(q) by {
      var sel := SelectMessages(rows, ids);
      forall i, j | 0 <= i < j < |q|
        ensures KeyLe(q[i].key, q[j].key)
      {
        assert q[i] == sel[i] && q[j] == sel[j];
      }
    }
    FilterKeepsOrder(q);
  }

  lemma {:induction false} SelectKeepsOrder(rows: seq<Message>, ids: seq<int>)
    requires Chronological(rows)
    ensures Chronological(SelectMessages(rows, ids))
    decreases |rows|
  {
    if rows != [] {
      var n := |rows| - 1;
      var init := rows[..n];
      SelectKeepsOrder(init, ids);
      var r := SelectMessages(rows, ids);
      var ri := SelectMessages(init, ids);
      if rows[n].chatId in ids {
        forall i | 0 <= i < |ri|
          ensures KeyLe(ri[i].key, rows[n].key)
        {
          assert ri[i] in init;
        }
      }
    }
  }

  lemma {:induction false} FilterKeepsOrder(msgs: seq<Message>)
    requires Chronological(msgs)
    ensures Chronological(FilterMessages(msgs))
    decreases |msgs|
  {
    if msgs != [] {
      var n := |msgs| - 1;
      var init := msgs[..n];
      FilterKeepsOrder(init);
      var ri := FilterMessages(init);
      if Printable(msgs[n]) {
        forall i | 0 <= i < |ri|
          ensures KeyLe(ri[i].key, msgs[n].key)
        {
          assert ri[i] in init;
        }
      }
    }
  }
}
