/**
 * Inbox aggregation: the conversation threads `getInbox` derives from the
 * messages a user sent or received, and the page of them it returns.
 *
 * The messages arrive newest first. The handler's `forEach` visits them in
 * that order and keeps a `Map` from counterparty to `{dernier, nonLus}`:
 * the first message seen for a counterparty becomes the thread's
 * `dernier`, and every message addressed to the caller and still unread
 * adds one to `nonLus`. `Absorb` is one visit and `Aggregate` the whole
 * fold; `Summarises` states, independently of the fold, what the result is.
 */
module Inbox {
  import opened Base
  import opened Models
  import opened JsOps

  /** The other participant of m as seen by `me`: the recipient when `me` sent it, otherwise the sender. */
  function Counterparty(m: Message, me: Id): Id
  {
    if m.expediteur == me then m.destinataire else m.expediteur
  }

  /** m is addressed to `me` and has not been read. */
  predicate UnreadFor(m: Message, me: Id)
  {
    !m.lu && m.destinataire == me
  }

  /** A thread: the counterparty, the newest message exchanged with them, and the number of their messages `me` has not read. */
  datatype Thread = Thread(other: Id, dernier: Message, nonLus: nat)

  /** `threadsMap.has(o)` / `threadsMap.get(o)`: the position of o's thread, or -1. */
  function FindThread(ts: seq<Thread>, o: Id): (r: int)
    ensures -1 <= r < |ts|
    ensures r == -1 <==> forall i :: 0 <= i < |ts| ==> ts[i].other != o
    ensures 0 <= r ==> ts[r].other == o && forall i :: 0 <= i < r ==> ts[i].other != o
  {
    if |ts| == 0 then -1
    else if ts[0].other == o then 0
    else
      var k := FindThread(ts[1..], o);
      if k == -1 then -1 else k + 1
  }

  /** One iteration of the `forEach`: open a thread for a new counterparty, then count m if it is unread by `me`. */
  function Absorb(ts: seq<Thread>, m: Message, me: Id): (r: seq<Thread>)
    ensures |r| == |ts| + (if FindThread(ts, Counterparty(m, me)) == -1 then 1 else 0)
    ensures forall i :: 0 <= i < |ts| ==> r[i].other == ts[i].other
  {
    var o := Counterparty(m, me);
    var k := FindThread(ts, o);
    var grown := if k == -1 then ts + [Thread(o, m, 0)] else ts;
    var at := if k == -1 then |ts| else k;
    if UnreadFor(m, me) then grown[at := grown[at].(nonLus := grown[at].nonLus + 1)] else grown
  }

  /** The threads, in `Map` insertion order, after the `forEach` has visited ms in order. */
  function Aggregate(ms: seq<Message>, me: Id): (r: seq<Thread>)
    ensures |r| <= |ms|
  {
    if ms == [] then [] else Absorb(Aggregate(ms[..|ms| - 1], me), ms[|ms| - 1], me)
  }

  /* ---------------------------------------------------------------- */
  /* Reference definitions, read from the front of the message list    */
  /* ---------------------------------------------------------------- */

  /** Position of the first message of ms exchanged with o; |ms| when there is none. */
  function FirstWith(ms: seq<Message>, me: Id, o: Id): (r: nat)
    ensures r <= |ms|
    ensures r < |ms| ==> Counterparty(ms[r], me) == o
    ensures forall j :: 0 <= j < r ==> Counterparty(ms[j], me) != o
  {
    if ms == [] then 0
    else if Counterparty(ms[0], me) == o then 0
    else 1 + FirstWith(ms[1..], me, o)
  }

  /** Number of messages of ms exchanged with o that `me` has not read. */
  function UnreadWith(ms: seq<Message>, me: Id, o: Id): nat
  {
    if ms == [] then 0
    else (if Counterparty(ms[0], me) == o && UnreadFor(ms[0], me) then 1 else 0) + UnreadWith(ms[1..], me, o)
  }

  /** Number of messages of ms that `me` has not read (the `countDocuments` of `getUnreadCount`). */
  function UnreadIn(ms: seq<Message>, me: Id): (r: nat)
    ensures r <= |ms|
    ensures r == 0 <==> forall i :: 0 <= i < |ms| ==> !UnreadFor(ms[i], me)
  {
    if ms == [] then 0 else (if UnreadFor(ms[0], me) then 1 else 0) + UnreadIn(ms[1..], me)
  }

  /** Sum of the threads' unread counters. */
  function SumNonLus(ts: seq<Thread>): nat
  {
    if ts == [] then 0 else ts[0].nonLus + SumNonLus(ts[1..])
  }

  /** No two threads share a counterparty. */
  ghost predicate DistinctOthers(ts: seq<Thread>)
  {
    forall i, j :: 0 <= i < j < |ts| ==> ts[i].other != ts[j].other
  }

  /** Every counterparty of ms has a thread. */
  ghost predicate Covers(ts: seq<Thread>, ms: seq<Message>, me: Id)
  {
    forall j :: 0 <= j < |ms| ==> FindThread(ts, Counterparty(ms[j], me)) != -1
  }

  /** Every thread holds the first message of ms exchanged with its counterparty (so it has one). */
  ghost predicate HoldsFirst(ts: seq<Thread>, ms: seq<Message>, me: Id)
  {
    forall i :: 0 <= i < |ts| ==>
      FirstWith(ms, me, ts[i].other) < |ms| && ts[i].dernier == ms[FirstWith(ms, me, ts[i].other)]
  }

  /** Every thread counts the messages of ms from its counterparty that `me` has not read. */
  ghost predicate CountsUnread(ts: seq<Thread>, ms: seq<Message>, me: Id)
  {
    forall i :: 0 <= i < |ts| ==> ts[i].nonLus == UnreadWith(ms, me, ts[i].other)
  }

  /** Threads are ordered by where their first message stands in ms. */
  ghost predicate OrderedByFirst(ts: seq<Thread>, ms: seq<Message>, me: Id)
  {
    forall i, j :: 0 <= i < j < |ts| ==> FirstWith(ms, me, ts[i].other) < FirstWith(ms, me, ts[j].other)
  }

  /**
   * ts is the thread list of ms: one thread per distinct counterparty and
   * none other, each holding the first message exchanged with its
   * counterparty and the number of those that `me` has not read, the
   * threads ordered by where their first message stands in ms.
   */
  ghost predicate Summarises(ts: seq<Thread>, ms: seq<Message>, me: Id)
  {
    DistinctOthers(ts) && Covers(ts, ms, me) && HoldsFirst(ts, ms, me)
    && CountsUnread(ts, ms, me) && OrderedByFirst(ts, ms, me)
  }

  /* ---------------------------------------------------------------- */
  /* The fold computes the reference                                   */
  /* ---------------------------------------------------------------- */

  lemma {:induction false} FirstWithSnoc(ms: seq<Message>, m: Message, me: Id, o: Id)
    ensures FirstWith(ms + [m], me, o) ==
      if FirstWith(ms, me, o) < |ms| then FirstWith(ms, me, o)
      else if Counterparty(m, me) == o then |ms| else |ms| + 1
  {
    if ms != [] {
      assert (ms + [m])[1..] == ms[1..] + [m];
      FirstWithSnoc(ms[1..], m, me, o);
    }
  }

  lemma {:induction false} UnreadWithSnoc(ms: seq<Message>, m: Message, me: Id, o: Id)
    ensures UnreadWith(ms + [m], me, o) ==
      UnreadWith(ms, me, o) + (if Counterparty(m, me) == o && UnreadFor(m, me) then 1 else 0)
  {
    if ms == [] {
      assert (ms + [m])[1..] == [];
    } else {
      assert (ms + [m])[1..] == ms[1..] + [m];
      UnreadWithSnoc(ms[1..], m, me, o);
    }
  }

  lemma {:induction false} UnreadWithAbsent(ms: seq<Message>, me: Id, o: Id)
    requires FirstWith(ms, me, o) == |ms|
    ensures UnreadWith(ms, me, o) == 0
  {
    if ms != [] { UnreadWithAbsent(ms[1..], me, o); }
  }

  lemma {:induction false} UnreadInSnoc(ms: seq<Message>, m: Message, me: Id)
    ensures UnreadIn(ms + [m], me) == UnreadIn(ms, me) + (if UnreadFor(m, me) then 1 else 0)
  {
    if ms == [] {
      assert (ms + [m])[1..] == [];
    } else {
      assert (ms + [m])[1..] == ms[1..] + [m];
      UnreadInSnoc(ms[1..], m, me);
    }
  }

  lemma {:induction false} SumNonLusSnoc(ts: seq<Thread>, t: Thread)
    ensures SumNonLus(ts + [t]) == SumNonLus(ts) + t.nonLus
  {
    if ts == [] {
      assert (ts + [t])[1..] == [];
    } else {
      assert (ts + [t])[1..] == ts[1..] + [t];
      SumNonLusSnoc(ts[1..], t);
    }
  }

  lemma {:induction false} SumNonLusBump(ts: seq<Thread>, k: nat)
    requires k < |ts|
    ensures SumNonLus(ts[k := ts[k].(nonLus := ts[k].nonLus + 1)]) == SumNonLus(ts) + 1
  {
    if k > 0 {
      assert ts[k := ts[k].(nonLus := ts[k].nonLus + 1)][1..] == ts[1..][k - 1 := ts[k].(nonLus := ts[k].nonLus + 1)];
      SumNonLusBump(ts[1..], k - 1);
    }
  }

  /* Absorbing a message from a counterparty that already has a thread. */

  lemma SeenShape(ts: seq<Thread>, m: Message, me: Id)
    requires FindThread(ts, Counterparty(m, me)) != -1
    ensures var ts', k := Absorb(ts, m, me), FindThread(ts, Counterparty(m, me));
      && |ts'| == |ts|
      && (forall i :: 0 <= i < |ts| ==> ts'[i].other == ts[i].other && ts'[i].dernier == ts[i].dernier)
      && (forall i :: 0 <= i < |ts| ==> ts'[i].nonLus == ts[i].nonLus + (if i == k && UnreadFor(m, me) then 1 else 0))
  {
  }

  lemma SeenCovers(ts: seq<Thread>, ms: seq<Message>, m: Message, me: Id)
    requires Covers(ts, ms, me) && FindThread(ts, Counterparty(m, me)) != -1
    ensures DistinctOthers(ts) ==> DistinctOthers(Absorb(ts, m, me))
    ensures Covers(Absorb(ts, m, me), ms + [m], me)
  {
    var ts', ms' := Absorb(ts, m, me), ms + [m];
    SeenShape(ts, m, me);
    forall j | 0 <= j < |ms'|
      ensures FindThread(ts', Counterparty(ms'[j], me)) != -1
    {
      var c := Counterparty(ms'[j], me);
      var p := if j < |ms| then FindThread(ts, Counterparty(ms[j], me)) else FindThread(ts, c);
      assert ts'[p].other == c;
    }
  }

  lemma SeenFirst(ts: seq<Thread>, ms: seq<Message>, m: Message, me: Id)
    requires HoldsFirst(ts, ms, me) && OrderedByFirst(ts, ms, me) && FindThread(ts, Counterparty(m, me)) != -1
    ensures HoldsFirst(Absorb(ts, m, me), ms + [m], me) && OrderedByFirst(Absorb(ts, m, me), ms + [m], me)
  {
    var ts', ms' := Absorb(ts, m, me), ms + [m];
    SeenShape(ts, m, me);
    forall i | 0 <= i < |ts'|
      ensures FirstWith(ms', me, ts'[i].other) == FirstWith(ms, me, ts[i].other)
      ensures ts'[i].dernier == ms'[FirstWith(ms', me, ts'[i].other)]
    {
      FirstWithSnoc(ms, m, me, ts[i].other);
    }
  }

  lemma SeenCounts(ts: seq<Thread>, ms: seq<Message>, m: Message, me: Id)
    requires CountsUnread(ts, ms, me) && DistinctOthers(ts) && FindThread(ts, Counterparty(m, me)) != -1
    ensures CountsUnread(Absorb(ts, m, me), ms + [m], me)
  {
    var k := FindThread(ts, Counterparty(m, me));
    var ts', ms' := Absorb(ts, m, me), ms + [m];
    SeenShape(ts, m, me);
    forall i | 0 <= i < |ts'|
      ensures ts'[i].nonLus == UnreadWith(ms', me, ts'[i].other)
    {
      UnreadWithSnoc(ms, m, me, ts[i].other);
    }
  }

  /* Absorbing a message from a counterparty with no thread yet. */

  lemma NewShape(ts: seq<Thread>, m: Message, me: Id)
    requires FindThread(ts, Counterparty(m, me)) == -1
    ensures var ts' := Absorb(ts, m, me);
      && |ts'| == |ts| + 1
      && ts'[..|ts|] == ts
      && ts'[|ts|] == Thread(Counterparty(m, me), m, if UnreadFor(m, me) then 1 else 0)
  {
  }

  lemma NewIsAbsent(ts: seq<Thread>, ms: seq<Message>, m: Message, me: Id)
    requires Covers(ts, ms, me) && FindThread(ts, Counterparty(m, me)) == -1
    ensures FirstWith(ms, me, Counterparty(m, me)) == |ms|
  {
  }

  lemma NewCovers(ts: seq<Thread>, ms: seq<Message>, m: Message, me: Id)
    requires Covers(ts, ms, me) && FindThread(ts, Counterparty(m, me)) == -1
    ensures DistinctOthers(ts) ==> DistinctOthers(Absorb(ts, m, me))
    ensures Covers(Absorb(ts, m, me), ms + [m], me)
  {
    var ts', ms' := Absorb(ts, m, me), ms + [m];
    NewShape(ts, m, me);
    assert forall i :: 0 <= i < |ts| ==> ts'[i] == ts[i];
    forall j | 0 <= j < |ms'|
      ensures FindThread(ts', Counterparty(ms'[j], me)) != -1
    {
      var c := Counterparty(ms'[j], me);
      var p := if j < |ms| then FindThread(ts, Counterparty(ms[j], me)) else |ts|;
      assert ts'[p].other == c;
    }
  }

  lemma NewFirst(ts: seq<Thread>, ms: seq<Message>, m: Message, me: Id)
    requires HoldsFirst(ts, ms, me) && OrderedByFirst(ts, ms, me)
    requires FirstWith(ms, me, Counterparty(m, me)) == |ms| && FindThread(ts, Counterparty(m, me)) == -1
    ensures HoldsFirst(Absorb(ts, m, me), ms + [m], me) && OrderedByFirst(Absorb(ts, m, me), ms + [m], me)
  {
    var ts', ms' := Absorb(ts, m, me), ms + [m];
    NewShape(ts, m, me);
    FirstWithSnoc(ms, m, me, Counterparty(m, me));
    forall i | 0 <= i < |ts'|
      ensures FirstWith(ms', me, ts'[i].other) == if i < |ts| then FirstWith(ms, me, ts[i].other) else |ms|
      ensures ts'[i].dernier == ms'[FirstWith(ms', me, ts'[i].other)]
    {
      if i < |ts| {
        assert ts'[i] == ts[i];
        FirstWithSnoc(ms, m, me, ts[i].other);
      }
    }
  }

  lemma NewCounts(ts: seq<Thread>, ms: seq<Message>, m: Message, me: Id)
    requires CountsUnread(ts, ms, me)
    requires FirstWith(ms, me, Counterparty(m, me)) == |ms| && FindThread(ts, Counterparty(m, me)) == -1
    ensures CountsUnread(Absorb(ts, m, me), ms + [m], me)
  {
    var ts', ms' := Absorb(ts, m, me), ms + [m];
    NewShape(ts, m, me);
    UnreadWithSnoc(ms, m, me, Counterparty(m, me));
    UnreadWithAbsent(ms, me, Counterparty(m, me));
    forall i | 0 <= i < |ts'|
      ensures ts'[i].nonLus == UnreadWith(ms', me, ts'[i].other)
    {
      if i < |ts| {
        assert ts'[i] == ts[i];
        UnreadWithSnoc(ms, m, me, ts[i].other);
      }
    }
  }

  /** Absorbing m into the thread list of ms gives the thread list of ms + [m]. */
  lemma AbsorbStep(ts: seq<Thread>, ms: seq<Message>, m: Message, me: Id)
    requires Summarises(ts, ms, me)
    ensures Summarises(Absorb(ts, m, me), ms + [m], me)
  {
    if FindThread(ts, Counterparty(m, me)) == -1 {
      NewIsAbsent(ts, ms, m, me);
      NewCovers(ts, ms, m, me);
      NewFirst(ts, ms, m, me);
      NewCounts(ts, ms, m, me);
    } else {
      SeenCovers(ts, ms, m, me);
      SeenFirst(ts, ms, m, me);
      SeenCounts(ts, ms, m, me);
    }
  }

  /** The fold computes the reference: `Aggregate(ms)` is the thread list of ms. */
  lemma {:induction false} AggregateSummarises(ms: seq<Message>, me: Id)
    ensures Summarises(Aggregate(ms, me), ms, me)
  {
    if ms != [] {
      var p := ms[..|ms| - 1];
      var m := ms[|ms| - 1];
      assert ms == p + [m];
      AggregateSummarises(p, me);
      AbsorbStep(Aggregate(p, me), p, m, me);
    }
  }

  /** The unread counters of all threads add up to the number of messages `me` has not read. */
  lemma {:induction false} SumNonLusIsUnread(ms: seq<Message>, me: Id)
    ensures SumNonLus(Aggregate(ms, me)) == UnreadIn(ms, me)
  {
    if ms != [] {
      var p := ms[..|ms| - 1];
      var m := ms[|ms| - 1];
      assert ms == p + [m];
      SumNonLusIsUnread(p, me);
      UnreadInSnoc(p, m, me);
      var ts := Aggregate(p, me);
      var o := Counterparty(m, me);
      var k := FindThread(ts, o);
      var grown := if k == -1 then ts + [Thread(o, m, 0)] else ts;
      var at := if k == -1 then |ts| else k;
      if k == -1 { SumNonLusSnoc(ts, Thread(o, m, 0)); }
      if UnreadFor(m, me) { SumNonLusBump(grown, at); }
    }
  }

  /* ---------------------------------------------------------------- */
  /* Newest first                                                       */
  /* ---------------------------------------------------------------- */

  /** ms is sorted by `createdAt`, newest first (the `sort({ createdAt: -1 })` order). */
  ghost predicate NewestFirst(ms: seq<Message>)
  {
    forall i, j :: 0 <= i < j < |ms| ==> ms[i].createdAt >= ms[j].createdAt
  }

  /**
   * Over messages sorted newest first, each thread holds the newest message
   * exchanged with its counterparty, and the threads are ordered by the
   * recency of that message.
   */
  lemma ThreadsByRecency(ms: seq<Message>, me: Id)
    requires NewestFirst(ms)
    ensures forall i, j :: (0 <= i < |Aggregate(ms, me)| && 0 <= j < |ms| &&
              Counterparty(ms[j], me) == Aggregate(ms, me)[i].other) ==>
              ms[j].createdAt <= Aggregate(ms, me)[i].dernier.createdAt
    ensures forall i, j :: 0 <= i < j < |Aggregate(ms, me)| ==>
              Aggregate(ms, me)[i].dernier.createdAt >= Aggregate(ms, me)[j].dernier.createdAt
  {
    AggregateSummarises(ms, me);
    RecencyOfFirst(Aggregate(ms, me), ms, me);
  }

  /** Threads holding the first message of a newest-first list hold its newest message, and are ordered newest first. */
  lemma RecencyOfFirst(ts: seq<Thread>, ms: seq<Message>, me: Id)
    requires NewestFirst(ms) && HoldsFirst(ts, ms, me) && OrderedByFirst(ts, ms, me)
    ensures forall i, j :: (0 <= i < |ts| && 0 <= j < |ms| && Counterparty(ms[j], me) == ts[i].other) ==>
              ms[j].createdAt <= ts[i].dernier.createdAt
    ensures forall i, j :: 0 <= i < j < |ts| ==> ts[i].dernier.createdAt >= ts[j].dernier.createdAt
  {
    forall i, j | 0 <= i < |ts| && 0 <= j < |ms| && Counterparty(ms[j], me) == ts[i].other
      ensures ms[j].createdAt <= ts[i].dernier.createdAt
    {
      var f := FirstWith(ms, me, ts[i].other);
      assert ts[i].dernier == ms[f];
      assert f <= j;
    }
    forall i, j | 0 <= i < j < |ts|
      ensures ts[i].dernier.createdAt >= ts[j].dernier.createdAt
    {
      var fi, fj := FirstWith(ms, me, ts[i].other), FirstWith(ms, me, ts[j].other);
      assert ts[i].dernier == ms[fi] && ts[j].dernier == ms[fj];
      assert fi < fj < |ms|;
    }
  }

  /* ---------------------------------------------------------------- */
  /* Pagination                                                         */
  /* ---------------------------------------------------------------- */

  const PageSizeDefault := 10

  /** `parseInt(q) || d`: an absent or unparsable value (NaN) and 0 both fall back to d. */
  function OrDefault(q: Option<int>, d: int): (r: int)
    ensures d != 0 ==> r != 0
    ensures q.Some? && q.value != 0 ==> r == q.value
    ensures q.None? || q.value == 0 ==> r == d
  {
    if q.None? || q.value == 0 then d else q.value
  }

  /** The JSON `getInbox` answers with (each thread's correspondent left as an id). */
  datatype InboxPage = InboxPage(page: int, limit: int, totalThreads: nat, totalPages: int, threads: seq<Thread>)

  /** Slice one page out of the thread list, as `getInbox` does after the aggregation. */
  function Paginate(threads: seq<Thread>, pageQ: Option<int>, limitQ: Option<int>): (r: InboxPage)
    ensures r.limit != 0 && r.totalThreads == |threads|
  {
    var page := OrDefault(pageQ, 1);
    var limit := OrDefault(limitQ, PageSizeDefault);
    var start := (page - 1) * limit;
    InboxPage(page, limit, |threads|, CeilDiv(|threads|, limit), Slice(threads, start, start + limit))
  }

  /**
   * With a positive page and limit: a page holds at most `limit` threads,
   * the ones from position (page-1)*limit on; it is empty exactly when the
   * page is past `totalPages`; and `totalPages` is ceil(total/limit).
   */
  lemma PageBounds(threads: seq<Thread>, pageQ: Option<int>, limitQ: Option<int>)
    requires Paginate(threads, pageQ, limitQ).page >= 1 && Paginate(threads, pageQ, limitQ).limit >= 1
    ensures var r := Paginate(threads, pageQ, limitQ);
            var start := (r.page - 1) * r.limit;
            && start >= 0
            && |r.threads| <= r.limit
            && (start < |threads| ==> r.threads == threads[start..if start + r.limit < |threads| then start + r.limit else |threads|])
            && (start >= |threads| ==> r.threads == [])
            && (r.totalPages - 1) * r.limit < |threads| <= r.totalPages * r.limit
            && (r.threads != [] <==> r.page <= r.totalPages)
  {
    var r := Paginate(threads, pageQ, limitQ);
    var n, p, l, tp := |threads|, r.page, r.limit, r.totalPages;
    var start := (p - 1) * l;
    assert start >= 0 by { MulMonotone(0, p - 1, l); }
    if p <= tp {
      MulMonotone(p - 1, tp - 1, l);
      assert start < n;
    } else {
      MulMonotone(tp, p - 1, l);
      assert start >= n;
    }
  }

  /** An empty thread list answers with no thread and zero pages, whatever the page asked for. */
  lemma EmptyInbox(pageQ: Option<int>, limitQ: Option<int>)
    ensures var r := Paginate([], pageQ, limitQ);
            r.totalThreads == 0 && r.totalPages == 0 && r.threads == []
  {
    var r := Paginate([], pageQ, limitQ);
    if r.limit > 0 { CeilDivZero(0, r.limit); }
  }

  /** Every thread appears on exactly one page: thread i sits at position i % limit of page i / limit + 1. */
  lemma ThreadOnItsPage(threads: seq<Thread>, limit: int, i: nat)
    requires limit >= 1 && i < |threads|
    ensures var r := Paginate(threads, Some(i / limit + 1), Some(limit));
            i % limit < |r.threads| && r.threads[i % limit] == threads[i]
  {
    var q, off := i / limit, i % limit;
    var start := q * limit;
    PositionSplit(i, limit);
    var r := Paginate(threads, Some(q + 1), Some(limit));
    assert r.threads == Slice(threads, start, start + limit);
    var end := if start + limit < |threads| then start + limit else |threads|;
    assert r.threads == threads[start..end];
    assert r.threads[off] == threads[start + off];
  }

  /** Position i lies at offset i % limit of the block of `limit` positions that starts at (i / limit) * limit. */
  lemma PositionSplit(i: nat, limit: int)
    requires limit >= 1
    ensures i / limit >= 0 && 0 <= i % limit < limit
    ensures (i / limit) * limit + i % limit == i
  {
  }

  /**
   * A negative page is not rejected: `slice` reads negative positions from
   * the end, so page -1 with 10 threads a page over 25 threads returns
   * threads 5 to 14.
   */
  lemma NegativePageCountsFromEnd(threads: seq<Thread>)
    requires |threads| == 25
    ensures Paginate(threads, Some(-1), Some(10)).threads == threads[5..15]
  {
  }
}
