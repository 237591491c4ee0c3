/**
 * The message collection and the handlers of the message controller that
 * read or change it: sending, the conversation with one user, the global
 * unread count, the paginated inbox, and the two read-marking operations.
 *
 * The collection is a log in insertion order. Creation stamps `createdAt`
 * from a clock that does not run backwards, so the log is also sorted by
 * `createdAt`; a query sorted by `createdAt` descending reads it backwards
 * (among equal timestamps this picks reverse insertion order, one of the
 * orders the database may return).
 */
module Messaging {
  import opened Base
  import opened Models
  import opened Inbox
  import opened JsOps

  /** ms is sorted by `createdAt`, oldest first (the `sort({ createdAt: 1 })` order). */
  ghost predicate OldestFirst(ms: seq<Message>)
  {
    forall i, j :: 0 <= i < j < |ms| ==> ms[i].createdAt <= ms[j].createdAt
  }

  /** `Message.find({ $or: [{ expediteur: me }, { destinataire: me }] })`, in log order. */
  function Involving(log: seq<Message>, me: Id): (r: seq<Message>)
    ensures forall m :: m in r <==> m in log && (m.expediteur == me || m.destinataire == me)
    ensures OldestFirst(log) ==> OldestFirst(r)
  {
    if log == [] then []
    else (if log[0].expediteur == me || log[0].destinataire == me then [log[0]] else []) + Involving(log[1..], me)
  }

  /** The messages between `me` and `other`, in either direction, in log order. */
  function Conversation(log: seq<Message>, me: Id, other: Id): (r: seq<Message>)
    ensures forall m :: m in r <==> (m in log &&
      ((m.expediteur == me && m.destinataire == other) || (m.expediteur == other && m.destinataire == me)))
    ensures OldestFirst(log) ==> OldestFirst(r)
  {
    if log == [] then []
    else
      var m := log[0];
      (if (m.expediteur == me && m.destinataire == other) || (m.expediteur == other && m.destinataire == me)
       then [m] else []) + Conversation(log[1..], me, other)
  }

  /** Each message `me` sent or received is fetched as many times as the log holds it, and no other message is. */
  lemma {:induction false} InvolvingMultiplicity(log: seq<Message>, me: Id)
    ensures forall m :: multiset(Involving(log, me))[m]
                     == if m.expediteur == me || m.destinataire == me then multiset(log)[m] else 0
  {
    if log != [] {
      InvolvingMultiplicity(log[1..], me);
      assert log == [log[0]] + log[1..];
    }
  }

  /** Each message between the two accounts is returned as many times as the log holds it, and no other message is. */
  lemma {:induction false} ConversationMultiplicity(log: seq<Message>, me: Id, other: Id)
    ensures forall m :: multiset(Conversation(log, me, other))[m]
                     == if (m.expediteur == me && m.destinataire == other) || (m.expediteur == other && m.destinataire == me)
                        then multiset(log)[m] else 0
  {
    if log != [] {
      ConversationMultiplicity(log[1..], me, other);
      assert log == [log[0]] + log[1..];
    }
  }

  /** What `getInbox` fetches for `me`: the messages `me` sent or received, newest first. */
  function InboxFeed(log: seq<Message>, me: Id): seq<Message>
  {
    Reverse(Involving(log, me))
  }

  /** The thread list `getInbox` derives for `me` before paginating it. */
  function ThreadsOf(log: seq<Message>, me: Id): (r: seq<Thread>)
    ensures |r| <= |Involving(log, me)|
  {
    Aggregate(InboxFeed(log, me), me)
  }

  /** Marks one message as read if it is an unread message from `other` to `me` (the filter of `markThreadRead`). */
  function ReadIfFrom(m: Message, me: Id, other: Id): Message
  {
    if m.destinataire == me && m.expediteur == other && !m.lu then m.(lu := true) else m
  }

  /** The log after `markThreadRead`'s `updateMany`. */
  function ThreadRead(log: seq<Message>, me: Id, other: Id): (r: seq<Message>)
    ensures |r| == |log|
    ensures forall i :: 0 <= i < |r| ==> !(r[i].expediteur == other && UnreadFor(r[i], me))
    ensures forall i :: 0 <= i < |r| ==>
      (if log[i].expediteur == other && log[i].destinataire == me then r[i] == log[i].(lu := true) else r[i] == log[i])
  {
    seq(|log|, i requires 0 <= i < |log| => ReadIfFrom(log[i], me, other))
  }

  /* ---------------------------------------------------------------- */
  /* Counting lemmas                                                    */
  /* ---------------------------------------------------------------- */

  lemma {:induction false} UnreadInInvolving(log: seq<Message>, me: Id)
    ensures UnreadIn(Involving(log, me), me) == UnreadIn(log, me)
  {
    if log != [] {
      UnreadInInvolving(log[1..], me);
      var head := if log[0].expediteur == me || log[0].destinataire == me then [log[0]] else [];
      UnreadInAppend(head, Involving(log[1..], me), me);
    }
  }

  lemma {:induction false} UnreadInAppend(a: seq<Message>, b: seq<Message>, me: Id)
    ensures UnreadIn(a + b, me) == UnreadIn(a, me) + UnreadIn(b, me)
  {
    if a == [] {
      assert a + b == b;
    } else {
      assert (a + b)[1..] == a[1..] + b;
      UnreadInAppend(a[1..], b, me);
    }
  }

  lemma {:induction false} UnreadInReverse(ms: seq<Message>, me: Id)
    ensures UnreadIn(Reverse(ms), me) == UnreadIn(ms, me)
  {
    if ms != [] {
      UnreadInReverse(ms[1..], me);
      UnreadInSnoc(Reverse(ms[1..]), ms[0], me);
    }
  }

  lemma {:induction false} UnreadWithAppend(a: seq<Message>, b: seq<Message>, me: Id, o: Id)
    ensures UnreadWith(a + b, me, o) == UnreadWith(a, me, o) + UnreadWith(b, me, o)
  {
    if a == [] {
      assert a + b == b;
    } else {
      assert (a + b)[1..] == a[1..] + b;
      UnreadWithAppend(a[1..], b, me, o);
    }
  }

  lemma {:induction false} UnreadWithInvolving(log: seq<Message>, me: Id, o: Id)
    ensures UnreadWith(Involving(log, me), me, o) == UnreadWith(log, me, o)
  {
    if log != [] {
      UnreadWithInvolving(log[1..], me, o);
      var head := if log[0].expediteur == me || log[0].destinataire == me then [log[0]] else [];
      UnreadWithAppend(head, Involving(log[1..], me), me, o);
    }
  }

  lemma {:induction false} UnreadWithReverse(ms: seq<Message>, me: Id, o: Id)
    ensures UnreadWith(Reverse(ms), me, o) == UnreadWith(ms, me, o)
  {
    if ms != [] {
      UnreadWithReverse(ms[1..], me, o);
      UnreadWithSnoc(Reverse(ms[1..]), ms[0], me, o);
    }
  }

  /* ---------------------------------------------------------------- */
  /* What the inbox promises                                            */
  /* ---------------------------------------------------------------- */

  /**
   * `getInbox` over a log sorted oldest first: one thread per distinct
   * counterparty of `me`, each holding the newest message exchanged with
   * that counterparty and the number of that counterparty's messages `me`
   * has not read, the threads ordered newest first.
   */
  lemma InboxThreads(log: seq<Message>, me: Id)
    requires OldestFirst(log)
    ensures Summarises(ThreadsOf(log, me), InboxFeed(log, me), me)
    ensures forall i :: 0 <= i < |ThreadsOf(log, me)| ==>
      ThreadsOf(log, me)[i].nonLus == UnreadWith(log, me, ThreadsOf(log, me)[i].other)
    ensures forall i, j :: 0 <= i < j < |ThreadsOf(log, me)| ==>
      ThreadsOf(log, me)[i].dernier.createdAt >= ThreadsOf(log, me)[j].dernier.createdAt
  {
    var feed := InboxFeed(log, me);
    AggregateSummarises(feed, me);
    ThreadsByRecency(feed, me);
    forall o
      ensures UnreadWith(feed, me, o) == UnreadWith(log, me, o)
    {
      UnreadWithReverse(Involving(log, me), me, o);
      UnreadWithInvolving(log, me, o);
    }
  }

  /** The unread counters of the inbox add up to the global unread count of `getUnreadCount`. */
  lemma InboxUnreadMatchesCount(log: seq<Message>, me: Id)
    ensures SumNonLus(ThreadsOf(log, me)) == UnreadIn(log, me)
  {
    SumNonLusIsUnread(InboxFeed(log, me), me);
    UnreadInReverse(Involving(log, me), me);
    UnreadInInvolving(log, me);
  }

  /** An empty log gives an empty inbox with no page. */
  lemma EmptyLogInbox(me: Id, pageQ: Option<int>, limitQ: Option<int>)
    ensures var r := Paginate(ThreadsOf([], me), pageQ, limitQ);
            r.totalThreads == 0 && r.totalPages == 0 && r.threads == []
  {
    assert ThreadsOf([], me) == [];
    EmptyInbox(pageQ, limitQ);
  }

  /**
   * After `markThreadRead(other)`, `other`'s thread counts no unread message
   * and every other thread keeps its count.
   */
  lemma {:induction false} ThreadReadCounts(log: seq<Message>, me: Id, other: Id, o: Id)
    ensures UnreadWith(ThreadRead(log, me, other), me, o) == if o == other then 0 else UnreadWith(log, me, o)
  {
    if log != [] {
      ThreadReadCounts(log[1..], me, other, o);
      assert ThreadRead(log, me, other)[1..] == ThreadRead(log[1..], me, other);
    }
  }

  /** `markThreadRead(other)` lowers the global unread count by exactly the unread messages from `other`. */
  lemma {:induction false} ThreadReadTotal(log: seq<Message>, me: Id, other: Id)
    ensures UnreadIn(ThreadRead(log, me, other), me) == UnreadIn(log, me) - UnreadWith(log, me, other)
  {
    if log != [] {
      ThreadReadTotal(log[1..], me, other);
      assert ThreadRead(log, me, other)[1..] == ThreadRead(log[1..], me, other);
    }
  }

  /** Marking a thread read twice is marking it once. */
  lemma ThreadReadIdempotent(log: seq<Message>, me: Id, other: Id)
    ensures ThreadRead(ThreadRead(log, me, other), me, other) == ThreadRead(log, me, other)
  {
  }

  /** Marking message k read lowers the unread count of `me` by one exactly when k was unread by `me`. */
  lemma {:induction false} ReadOneCount(log: seq<Message>, k: nat, me: Id)
    requires k < |log|
    ensures UnreadIn(log[k := log[k].(lu := true)], me) == UnreadIn(log, me) - (if UnreadFor(log[k], me) then 1 else 0)
  {
    if k > 0 {
      assert log[k := log[k].(lu := true)][1..] == log[1..][k - 1 := log[k].(lu := true)];
      ReadOneCount(log[1..], k - 1, me);
    }
  }

  /** A new message is unread: it adds one to its recipient's unread count and to nobody else's. */
  lemma NewMessageUnread(log: seq<Message>, id: Id, from: Id, to: Id, contenu: string, now: int, me: Id)
    ensures UnreadIn(log + [NewMessage(id, from, to, contenu, now)], me) == UnreadIn(log, me) + (if me == to then 1 else 0)
  {
    UnreadInSnoc(log, NewMessage(id, from, to, contenu, now), me);
  }

  /* ---------------------------------------------------------------- */
  /* The forEach of getInbox                                            */
  /* ---------------------------------------------------------------- */

  /** The thread list the fold builds never holds two threads for one counterparty. */
  lemma AggregateDistinct(ms: seq<Message>, me: Id)
    ensures DistinctOthers(Aggregate(ms, me))
  {
    AggregateSummarises(ms, me);
  }

  /** The index maps each counterparty to the position of its thread, and every thread is indexed. */
  ghost predicate Indexes(threads: seq<Thread>, index: map<Id, nat>)
  {
    (forall p :: p in index ==> index[p] < |threads| && threads[index[p]].other == p)
    && (forall k :: 0 <= k < |threads| ==> threads[k].other in index)
  }

  /** A map from each counterparty to the position of its thread answers what the lookup in the thread list answers. */
  lemma IndexFinds(threads: seq<Thread>, index: map<Id, nat>, o: Id)
    requires DistinctOthers(threads) && Indexes(threads, index)
    ensures FindThread(threads, o) == if o in index then index[o] else -1
  {
  }

  /**
   * One visit through the index: opening a thread at the end for a new
   * counterparty and then counting m at the indexed position is `Absorb`,
   * and the extended index still indexes the result.
   */
  lemma AbsorbIndexed(threads: seq<Thread>, index: map<Id, nat>, m: Message, me: Id)
    requires DistinctOthers(threads) && Indexes(threads, index)
    ensures var o := Counterparty(m, me);
            var index' := if o in index then index else index[o := |threads|];
            var grown := if o in index then threads else threads + [Thread(o, m, 0)];
            Indexes(grown, index') && o in index' && index'[o] < |grown|
            && Absorb(threads, m, me) == (if UnreadFor(m, me) then grown[index'[o] := grown[index'[o]].(nonLus := grown[index'[o]].nonLus + 1)] else grown)
            && Indexes(Absorb(threads, m, me), index')
  {
    IndexFinds(threads, index, Counterparty(m, me));
  }

  /** Visiting one more message is one more `Absorb`. */
  lemma AggregateSnoc(ms: seq<Message>, i: nat, me: Id)
    requires i < |ms|
    ensures Aggregate(ms[..i + 1], me) == Absorb(Aggregate(ms[..i], me), ms[i], me)
  {
    assert ms[..i + 1][..i] == ms[..i];
  }

  /** One iteration of the `forEach` of `getInbox`, through the index: open a thread for a new counterparty, then count m if `me` has not read it. */
  method VisitMessage(threads: seq<Thread>, index: map<Id, nat>, m: Message, me: Id)
    returns (threads': seq<Thread>, index': map<Id, nat>)
    requires DistinctOthers(threads) && Indexes(threads, index)
    ensures threads' == Absorb(threads, m, me) && Indexes(threads', index')
  {
    var o := Counterparty(m, me);
    AbsorbIndexed(threads, index, m, me);
    threads', index' := threads, index;
    if o !in index {
      index' := index[o := |threads|];
      threads' := threads + [Thread(o, m, 0)];
    }
    if UnreadFor(m, me) {
      var k := index'[o];
      threads' := threads'[k := threads'[k].(nonLus := threads'[k].nonLus + 1)];
    }
  }

  /**
   * The aggregation loop of `getInbox`: visits ms in order, keeping the
   * thread list and a map from counterparty to the position of its thread.
   */
  method BuildThreads(ms: seq<Message>, me: Id) returns (threads: seq<Thread>)
    ensures threads == Aggregate(ms, me)
  {
    threads := [];
    var index: map<Id, nat> := map[];
    var i := 0;
    while i < |ms|
      invariant 0 <= i <= |ms|
      invariant threads == Aggregate(ms[..i], me)
      invariant Indexes(threads, index)
    {
      AggregateSnoc(ms, i, me);
      AggregateDistinct(ms[..i], me);
      threads, index := VisitMessage(threads, index, ms[i], me);
      i := i + 1;
    }
    assert ms[..|ms|] == ms;
  }

  /* ---------------------------------------------------------------- */
  /* The store                                                          */
  /* ---------------------------------------------------------------- */

  datatype MarkOutcome = MessageNotFound | NotRecipient | MarkedRead

  class MessageStore {
    var log: seq<Message>

    /** Each message's id is its position, and the log is sorted oldest first. */
    ghost predicate Valid()
      reads this
    {
      (forall i :: 0 <= i < |log| ==> log[i].id == i) && OldestFirst(log)
    }

    constructor ()
      ensures Valid() && log == []
    {
      log := [];
    }

    /**
     * `envoyerMessage`: `me` sends `contenu` to `destinataire` at time `now`.
     * An empty content fails the schema's `required` check and nothing is
     * stored; otherwise one unread message is appended.
     */
    method EnvoyerMessage(me: Id, destinataire: Id, contenu: string, now: int) returns (r: Option<Message>)
      requires Valid()
      requires forall i :: 0 <= i < |log| ==> log[i].createdAt <= now
      modifies this
      ensures Valid()
      ensures contenu == "" ==> r == None && log == old(log)
      ensures contenu != "" ==> r == Some(NewMessage(|old(log)|, me, destinataire, contenu, now))
      ensures contenu != "" ==> log == old(log) + [r.value]
    {
      if contenu == "" {
        return None;
      }
      var m := NewMessage(|log|, me, destinataire, contenu, now);
      log := log + [m];
      r := Some(m);
    }

    /** `getInbox`: the requested page of `me`'s threads. */
    method GetInbox(me: Id, pageQ: Option<int>, limitQ: Option<int>) returns (r: InboxPage)
      ensures r == Paginate(ThreadsOf(log, me), pageQ, limitQ)
    {
      var feed := InboxFeed(log, me);
      var threads := BuildThreads(feed, me);
      r := Paginate(threads, pageQ, limitQ);
    }

    /**
     * `markMessageRead`: only the recipient may mark a message read; a
     * missing id or another caller changes nothing. Marking a message that
     * is already read changes nothing either.
     */
    method MarkMessageRead(me: Id, id: Id) returns (r: MarkOutcome)
      requires Valid()
      modifies this
      ensures Valid()
      ensures id >= |old(log)| ==> r == MessageNotFound && log == old(log)
      ensures id < |old(log)| && old(log)[id].destinataire != me ==> r == NotRecipient && log == old(log)
      ensures id < |old(log)| && old(log)[id].destinataire == me ==>
        r == MarkedRead && log == old(log)[id := old(log)[id].(lu := true)]
      ensures id < |old(log)| && old(log)[id].lu ==> log == old(log)
    {
      if id >= |log| {
        return MessageNotFound;
      }
      if log[id].destinataire != me {
        return NotRecipient;
      }
      log := log[id := log[id].(lu := true)];
      r := MarkedRead;
    }

    /** `markThreadRead`: the `updateMany` marking read every unread message from `other` to `me`. */
    method MarkThreadRead(me: Id, other: Id)
      requires Valid()
      modifies this
      ensures Valid()
      ensures log == ThreadRead(old(log), me, other)
    {
      var i := 0;
      while i < |log|
        invariant 0 <= i <= |log| == |old(log)|
        invariant forall k :: 0 <= k < i ==> log[k] == ReadIfFrom(old(log)[k], me, other)
        invariant forall k :: i <= k < |log| ==> log[k] == old(log)[k]
      {
        if log[i].destinataire == me && log[i].expediteur == other && !log[i].lu {
          log := log[i := log[i].(lu := true)];
        }
        i := i + 1;
      }
    }
  }
}
