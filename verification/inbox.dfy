/** The inbox counters of the grid plugin: how many messages the peer
    service holds, and how many of them have not been seen yet. */
module Inbox {
  import opened Wrappers

  /** One inbox message; only its `seen_at` timestamp matters here, and it
      is `None` while the message is unread. */
  datatype Message = Message(seenAt: Option<string>)

  /** `UNREAD_MESSAGES` and `TOTAL_MESSAGES`, returned instead of stored. */
  datatype Counters = Counters(unread: nat, total: nat)

  predicate Unread(m: Message) {
    m.seenAt.None?
  }

  /** `len([m for m in messages if m['seen_at'] is None])`. */
  function UnreadCount(msgs: seq<Message>): (n: nat)
    ensures n <= |msgs|
    ensures n == 0 <==> forall i :: 0 <= i < |msgs| ==> !Unread(msgs[i])
    ensures n == |msgs| <==> forall i :: 0 <= i < |msgs| ==> Unread(msgs[i])
  {
    if |msgs| == 0 then 0
    else
      var rest := UnreadCount(msgs[1..]);
      assert forall i :: 1 <= i < |msgs| ==> msgs[i] == msgs[1..][i - 1];
      (if Unread(msgs[0]) then 1 else 0) + rest
  }

  /** The counters the inbox check derives from the fetched messages. */
  function Tally(msgs: seq<Message>): (c: Counters)
    ensures c.total == |msgs|
    ensures c.unread <= c.total
    ensures c.unread == multiset(msgs)[Message(None)]
  {
    UnreadIsMultiplicity(msgs);
    Counters(UnreadCount(msgs), |msgs|)
  }

  /** Counting splits over the two parts of an inbox. */
  lemma {:induction false} UnreadAppend(a: seq<Message>, b: seq<Message>)
    ensures UnreadCount(a + b) == UnreadCount(a) + UnreadCount(b)
  {
    if |a| == 0 {
      assert a + b == b;
    } else {
      assert (a + b)[1..] == a[1..] + b;
      UnreadAppend(a[1..], b);
    }
  }

  /** The unread count is the number of messages without a `seen_at`
      timestamp, however they are ordered. */
  lemma {:induction false} UnreadIsMultiplicity(msgs: seq<Message>)
    ensures UnreadCount(msgs) == multiset(msgs)[Message(None)]
  {
    if |msgs| > 0 {
      UnreadIsMultiplicity(msgs[1..]);
      assert msgs == [msgs[0]] + msgs[1..];
      assert multiset(msgs) == multiset([msgs[0]]) + multiset(msgs[1..]);
    }
  }

  /** Three messages, two of them seen: one unread of three. */
  lemma TallyExample(t1: string, t2: string)
    ensures Tally([Message(Some(t1)), Message(None), Message(Some(t2))]) == Counters(1, 3)
  {
    var msgs := [Message(Some(t1)), Message(None), Message(Some(t2))];
    assert UnreadCount(msgs[2..]) == 0;
    assert UnreadCount(msgs[1..]) == 1;
  }
}
