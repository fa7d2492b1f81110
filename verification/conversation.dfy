/** The conversation store: the `messages` list and the
    `/api/messages/:user1/:user2` query, which keeps the messages exchanged
    by two users and sorts them by timestamp with a stable sort. */
module Conversation {

  /** A stored message `{ id, from, to, message, timestamp }`; `id` and
      `timestamp` are clock readings in milliseconds. */
  datatype Message = Message(id: int, from: string, to: string, message: string, timestamp: int)

  /** The message went from `a` to `b` or from `b` to `a`. */
  predicate Between(m: Message, a: string, b: string)
  {
    (m.from == a && m.to == b) || (m.from == b && m.to == a)
  }

  /** The messages exchanged by `a` and `b`, in stored order. */
  function Exchanged(ms: seq<Message>, a: string, b: string): (r: seq<Message>)
    ensures |r| <= |ms|
    ensures forall i :: 0 <= i < |r| ==> Between(r[i], a, b)
  {
    if ms == [] then []
    else (if Between(ms[0], a, b) then [ms[0]] else []) + Exchanged(ms[1..], a, b)
  }

  /** Ascending by timestamp. */
  ghost predicate SortedByTime(s: seq<Message>)
  {
    forall i, j :: 0 <= i < j < |s| ==> s[i].timestamp <= s[j].timestamp
  }

  /** Places `m` into `s` after the trailing messages whose timestamps are
      later than its own; on a sorted `s`, after every message whose
      timestamp is not later than its own. */
  function Insert(s: seq<Message>, m: Message): (r: seq<Message>)
    ensures multiset(r) == multiset(s) + multiset{m}
  {
    if s == [] || s[|s| - 1].timestamp <= m.timestamp then s + [m]
    else
      assert s == s[..|s| - 1] + [s[|s| - 1]];
      Insert(s[..|s| - 1], m) + [s[|s| - 1]]
  }

  /** The ascending sort by timestamp, stable as the runtime's sort is: an
      insertion sort that keeps equal timestamps in their input order. */
  function SortByTime(s: seq<Message>): (r: seq<Message>)
    ensures multiset(r) == multiset(s)
  {
    if s == [] then []
    else
      assert s == s[..|s| - 1] + [s[|s| - 1]];
      Insert(SortByTime(s[..|s| - 1]), s[|s| - 1])
  }

  /** An insertion into a sorted sequence keeps it sorted. */
  lemma {:induction false} InsertSorted(s: seq<Message>, m: Message)
    requires SortedByTime(s)
    ensures SortedByTime(Insert(s, m))
  {
    if !(s == [] || s[|s| - 1].timestamp <= m.timestamp) {
      var init, last := s[..|s| - 1], s[|s| - 1];
      assert SortedByTime(init);
      InsertSorted(init, m);
      var r := Insert(init, m);
      forall i | 0 <= i < |r| ensures r[i].timestamp <= last.timestamp {
        assert r[i] in multiset(init) + multiset{m};
        if r[i] != m {
          var k :| 0 <= k < |init| && init[k] == r[i];
          assert s[k] == init[k];
        }
      }
    }
  }

  /** The sort yields a timestamp-ascending permutation of its input. */
  lemma {:induction false} SortByTimeSortsAndPermutes(s: seq<Message>)
    ensures SortedByTime(SortByTime(s))
    ensures multiset(SortByTime(s)) == multiset(s)
  {
    if s != [] {
      var init, last := s[..|s| - 1], s[|s| - 1];
      assert s == init + [last];
      SortByTimeSortsAndPermutes(init);
      InsertSorted(SortByTime(init), last);
    }
  }

  /** `/api/messages/:user1/:user2`. */
  function GetConversation(ms: seq<Message>, a: string, b: string): (r: seq<Message>)
    ensures SortedByTime(r)
    ensures multiset(r) == multiset(Exchanged(ms, a, b))
  {
    SortByTimeSortsAndPermutes(Exchanged(ms, a, b));
    SortByTime(Exchanged(ms, a, b))
  }

  /** The messages of `s` sent at time `t`, in order. */
  function AtTime(s: seq<Message>, t: int): seq<Message>
  {
    if s == [] then [] else (if s[0].timestamp == t then [s[0]] else []) + AtTime(s[1..], t)
  }

  /** Picking the messages of one timestamp distributes over concatenation. */
  lemma {:induction false} AtTimeAppend(s: seq<Message>, u: seq<Message>, t: int)
    ensures AtTime(s + u, t) == AtTime(s, t) + AtTime(u, t)
  {
    if s != [] {
      var head := if s[0].timestamp == t then [s[0]] else [];
      assert (s + u)[0] == s[0];
      assert (s + u)[1..] == s[1..] + u;
      AtTimeAppend(s[1..], u, t);
      calc {
        AtTime(s + u, t);
        head + AtTime(s[1..] + u, t);
        head + (AtTime(s[1..], t) + AtTime(u, t));
        (head + AtTime(s[1..], t)) + AtTime(u, t);
      }
    } else {
      assert s + u == u;
    }
  }

  /** An insertion puts the message after every earlier message with the
      same timestamp. */
  lemma {:induction false} InsertStable(s: seq<Message>, m: Message, t: int)
    ensures AtTime(Insert(s, m), t) == AtTime(s, t) + AtTime([m], t)
  {
    if s == [] || s[|s| - 1].timestamp <= m.timestamp {
      AtTimeAppend(s, [m], t);
    } else {
      var init, last := s[..|s| - 1], s[|s| - 1];
      assert s == init + [last];
      InsertStable(init, m, t);
      AtTimeAppend(Insert(init, m), [last], t);
      AtTimeAppend(init, [last], t);
      assert last.timestamp != m.timestamp;
    }
  }

  /** The sort is stable: for each timestamp, the messages carrying it keep
      their input order. */
  lemma {:induction false} SortByTimeStable(s: seq<Message>, t: int)
    ensures AtTime(SortByTime(s), t) == AtTime(s, t)
  {
    if s != [] {
      var init, last := s[..|s| - 1], s[|s| - 1];
      assert s == init + [last];
      SortByTimeStable(init, t);
      SortByTimeSortsAndPermutes(init);
      InsertStable(SortByTime(init), last, t);
      AtTimeAppend(init, [last], t);
    }
  }

  /** An already sorted input comes back unchanged. */
  lemma {:induction false} SortByTimeKeepsSorted(s: seq<Message>)
    requires SortedByTime(s)
    ensures SortByTime(s) == s
  {
    if s != [] {
      var init := s[..|s| - 1];
      assert SortedByTime(init);
      SortByTimeKeepsSorted(init);
      assert s == init + [s[|s| - 1]];
    }
  }

  /** The filter keeps exactly the messages between the two users. */
  lemma {:induction false} ExchangedMembers(ms: seq<Message>, a: string, b: string, m: Message)
    ensures m in Exchanged(ms, a, b) <==> m in ms && Between(m, a, b)
  {
    if ms != [] {
      ExchangedMembers(ms[1..], a, b, m);
      assert ms == [ms[0]] + ms[1..];
    }
  }

  /** The filter does not depend on the order of the two users. */
  lemma {:induction false} ExchangedSymmetric(ms: seq<Message>, a: string, b: string)
    ensures Exchanged(ms, a, b) == Exchanged(ms, b, a)
  {
    if ms != [] {
      ExchangedSymmetric(ms[1..], a, b);
    }
  }

  /** The filter keeps stored order. */
  lemma {:induction false} ExchangedAppend(ms: seq<Message>, m: Message, a: string, b: string)
    ensures Exchanged(ms + [m], a, b) == Exchanged(ms, a, b) + (if Between(m, a, b) then [m] else [])
  {
    if ms != [] {
      assert (ms + [m])[1..] == ms[1..] + [m];
      ExchangedAppend(ms[1..], m, a, b);
    }
  }

  /** The conversation holds exactly the messages sent between the two users
      in either direction, each as often as it is stored, sorted by
      timestamp; an empty result, never an error, when there are none. */
  lemma ConversationContents(ms: seq<Message>, a: string, b: string)
    ensures SortedByTime(GetConversation(ms, a, b))
    ensures multiset(GetConversation(ms, a, b)) == multiset(Exchanged(ms, a, b))
    ensures forall m :: m in GetConversation(ms, a, b) <==> m in ms && Between(m, a, b)
    ensures (forall m :: m in ms ==> !Between(m, a, b)) ==> GetConversation(ms, a, b) == []
  {
    SortByTimeSortsAndPermutes(Exchanged(ms, a, b));
    forall m ensures m in GetConversation(ms, a, b) <==> m in ms && Between(m, a, b) {
      ExchangedMembers(ms, a, b, m);
      assert m in GetConversation(ms, a, b) <==> m in multiset(Exchanged(ms, a, b));
    }
    var c := GetConversation(ms, a, b);
    assert c == [] || c[0] in c;
  }

  /** Messages sent at the same instant keep their stored order in the
      conversation. */
  lemma ConversationStable(ms: seq<Message>, a: string, b: string, t: int)
    ensures AtTime(GetConversation(ms, a, b), t) == AtTime(Exchanged(ms, a, b), t)
  {
    SortByTimeStable(Exchanged(ms, a, b), t);
  }

  /** The conversation does not depend on the order of its two users. */
  lemma ConversationSymmetric(ms: seq<Message>, a: string, b: string)
    ensures GetConversation(ms, a, b) == GetConversation(ms, b, a)
  {
    ExchangedSymmetric(ms, a, b);
  }

  /** A message stored no earlier than every other one comes last in its
      conversation, after the previous conversation; other conversations do
      not change. */
  lemma ConversationAppend(ms: seq<Message>, m: Message, a: string, b: string)
    requires forall k :: 0 <= k < |ms| ==> ms[k].timestamp <= m.timestamp
    ensures GetConversation(ms + [m], a, b) ==
            GetConversation(ms, a, b) + (if Between(m, a, b) then [m] else [])
  {
    ExchangedAppend(ms, m, a, b);
    if !Between(m, a, b) {
      assert Exchanged(ms + [m], a, b) == Exchanged(ms, a, b) + [];
      assert Exchanged(ms, a, b) + [] == Exchanged(ms, a, b);
    } else {
      var e := Exchanged(ms, a, b);
      var s := SortByTime(e);
      assert (e + [m])[..|e|] == e && (e + [m])[|e|] == m;
      assert SortByTime(e + [m]) == Insert(s, m);
      if s != [] {
        var x := s[|s| - 1];
        SortByTimeSortsAndPermutes(e);
        assert x in multiset(s);
        ExchangedMembers(ms, a, b, x);
        var k :| 0 <= k < |ms| && ms[k] == x;
        assert x.timestamp <= m.timestamp;
      }
      assert Insert(s, m) == s + [m];
    }
  }
}
