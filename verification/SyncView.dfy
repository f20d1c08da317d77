/**
 What the user sees while the protocol runs, when the server's answer to each accepted mutation does what the
 client predicted: a commit does not change the visible state, and under natural conditions on the others'
 updates the visible state is defined throughout.
 */
module SyncView {
  import opened Prelude
  import opened OptimisticStore
  import opened KeyedStore
  import opened StoreAlgebra
  import opened SyncProtocol

  // ---------------------------------------------------------------- runs that answer as predicted

  function WritesOf(m: Mutation): seq<RowUpdate> {
    Updates(Entries(m))
  }

  /** The entries of the mutation with the given id. */
  function EntriesOf(h: seq<Mutation>, id: string): seq<Pending> {
    if h == [] then []
    else
      var n := |h| - 1;
      if h[n].id == id then Entries(h[n]) else EntriesOf(h[..n], id)
  }

  /** What the server does for an accepted mutation is what the client's writes would do there. */
  ghost predicate AsPredicted(s: State, a: Action) {
    a.Accept? ==>
      var i := FirstWaiting(s.history);
      i < |s.history| ==> PutAll(Keys(s.server), a.updates) == PutAll(Keys(s.server), WritesOf(s.history[i]))
  }

  ghost predicate RunsAsPredicted(s: State, actions: seq<Action>)
    decreases |actions|
  {
    actions == [] || (AsPredicted(s, actions[0])
                      && (Next(s, actions[0]).Ok? ==> RunsAsPredicted(Next(s, actions[0]).state, actions[1..])))
  }

  /** The batch with the client's own writes in place of the server's answers. */
  function Predict(h: seq<Mutation>, b: Batch): Batch {
    seq(|b|, k requires 0 <= k < |b| =>
      if b[k].Own? then Own(b[k].id, Updates(EntriesOf(h, b[k].id))) else b[k])
  }

  ghost predicate Submitted(h: seq<Mutation>, b: Batch) {
    forall k | 0 <= k < |b| && b[k].Own? :: exists m :: m in h && m.id == b[k].id
  }

  /** Up to every part, the batch does what was predicted. */
  ghost predicate Effective(m: Keyed, h: seq<Mutation>, b: Batch) {
    forall k | 0 <= k <= |b| :: PutAll(m, BatchUpdates(b[..k])) == PutAll(m, BatchUpdates(Predict(h, b)[..k]))
  }

  /** Everything in flight, as one batch. */
  function Parts(stream: seq<Batch>): Batch {
    if stream == [] then [] else stream[0] + Parts(stream[1..])
  }

  /** What is in flight does, on the committed data, what the client predicted. */
  ghost predicate InvPredicted(s: State) {
    Inv(s) && Submitted(s.history, Parts(s.stream)) && Effective(Keys(s.gold), s.history, Parts(s.stream))
  }

  lemma {:induction false} PartsConcat(p: seq<Batch>, q: seq<Batch>)
    ensures Parts(p + q) == Parts(p) + Parts(q)
  {
    if p == [] {
      assert p + q == q;
    } else {
      assert (p + q)[1..] == p[1..] + q;
      PartsConcat(p[1..], q);
    }
  }

  lemma PartsOne(b: Batch)
    ensures Parts([b]) == b
  {
    assert [b][1..] == [] && b + [] == b;
  }

  lemma {:induction false} PartsInFlight(stream: seq<Batch>)
    ensures BatchUpdates(Parts(stream)) == InFlight(stream)
  {
    if stream != [] {
      PartsInFlight(stream[1..]);
      BatchUpdatesConcat(stream[0], Parts(stream[1..]));
    }
  }

  lemma {:induction false} EntriesOfAt(h: seq<Mutation>, i: nat)
    requires DistinctIds(h) && i < |h|
    ensures EntriesOf(h, h[i].id) == Entries(h[i])
  {
    if i < |h| - 1 {
      EntriesOfAt(h[..|h| - 1], i);
    }
  }

  /** Histories with the same ids and writes. */
  ghost predicate SameWrites(h: seq<Mutation>, h': seq<Mutation>) {
    |h| == |h'| && forall i | 0 <= i < |h| :: h[i].id == h'[i].id && h[i].writes == h'[i].writes
  }

  lemma {:induction false} EntriesOfSame(h: seq<Mutation>, h': seq<Mutation>, id: string)
    requires SameWrites(h, h')
    ensures EntriesOf(h, id) == EntriesOf(h', id)
  {
    if h != [] {
      var n := |h| - 1;
      EntriesOfSame(h[..n], h'[..n], id);
      assert Entries(h[n]) == Entries(h'[n]);
    }
  }

  lemma PredictSame(h: seq<Mutation>, h': seq<Mutation>, b: Batch)
    requires SameWrites(h, h') && Submitted(h, b)
    ensures Submitted(h', b) && Predict(h', b) == Predict(h, b)
  {
    forall k | 0 <= k < |b| && b[k].Own?
      ensures (exists m :: m in h' && m.id == b[k].id) && EntriesOf(h, b[k].id) == EntriesOf(h', b[k].id)
    {
      var m :| m in h && m.id == b[k].id;
      var i :| 0 <= i < |h| && h[i] == m;
      assert h'[i] in h' && h'[i].id == b[k].id;
      EntriesOfSame(h, h', b[k].id);
    }
  }

  lemma PredictLonger(h: seq<Mutation>, m: Mutation, b: Batch)
    requires Submitted(h, b) && forall m' | m' in h :: m'.id != m.id
    ensures Submitted(h + [m], b) && Predict(h + [m], b) == Predict(h, b)
  {
    var longer := h + [m];
    assert longer[..|h|] == h;
    forall k | 0 <= k < |b| && b[k].Own?
      ensures (exists m' :: m' in longer && m'.id == b[k].id) && EntriesOf(longer, b[k].id) == EntriesOf(h, b[k].id)
    {
      var m' :| m' in h && m'.id == b[k].id;
      assert m' in longer;
    }
  }

  lemma SameEffect(m: Keyed, h: seq<Mutation>, h': seq<Mutation>, b: Batch)
    requires Effective(m, h, b) && Predict(h', b) == Predict(h, b)
    ensures Effective(m, h', b)
  {
    hide Predict;
  }

  lemma PredictConcat(h: seq<Mutation>, b: Batch, c: Batch)
    ensures Predict(h, b + c) == Predict(h, b) + Predict(h, c)
  {
  }

  /** One more part in flight, which does on the server's data what was predicted. */
  lemma EffectiveLonger(m: Keyed, h: seq<Mutation>, b: Batch, p: Part, server: Keyed)
    requires Effective(m, h, b) && PutAll(m, BatchUpdates(b)) == Some(server)
    requires PutAll(server, p.updates) == PutAll(server, BatchUpdates(Predict(h, [p])))
    ensures Effective(m, h, b + [p])
  {
    hide Predict, PutAll;
    var longer, pre, last := b + [p], Predict(h, b), Predict(h, [p]);
    PredictConcat(h, b, [p]);
    PredictLength(h, b);
    PredictLength(h, [p]);
    assert b[..|b|] == b && pre[..|b|] == pre;
    forall k | 0 <= k <= |longer|
      ensures PutAll(m, BatchUpdates(longer[..k])) == PutAll(m, BatchUpdates((pre + last)[..k]))
    {
      if k <= |b| {
        assert longer[..k] == b[..k] && (pre + last)[..k] == pre[..k];
      } else {
        assert longer[..k] == longer && (pre + last)[..k] == pre + last;
        BatchUpdatesConcat(b, [p]);
        BatchOne(p);
        BatchUpdatesConcat(pre, last);
        PutAllConcat(m, BatchUpdates(b), p.updates);
        PutAllConcat(m, BatchUpdates(pre), BatchUpdates(last));
      }
    }
  }

  lemma PredictLength(h: seq<Mutation>, b: Batch)
    ensures |Predict(h, b)| == |b|
  {
  }

  /** What is still in flight after a delivery. */
  lemma EffectiveRest(m: Keyed, h: seq<Mutation>, b: Batch, rest: Batch)
    requires Effective(m, h, b + rest) && PutAll(m, BatchUpdates(b)).Some?
    ensures PutAll(m, BatchUpdates(b)) == PutAll(m, BatchUpdates(Predict(h, b)))
    ensures Effective(PutAll(m, BatchUpdates(b)).value, h, rest)
  {
    hide Predict, PutAll;
    var all, pre, later := b + rest, Predict(h, b), Predict(h, rest);
    PredictConcat(h, b, rest);
    PredictLength(h, b);
    PredictLength(h, rest);
    assert all[..|b|] == b && (pre + later)[..|b|] == pre;
    forall k | 0 <= k <= |rest|
      ensures var m' := PutAll(m, BatchUpdates(b)).value;
              PutAll(m', BatchUpdates(rest[..k])) == PutAll(m', BatchUpdates(later[..k]))
    {
      assert all[..|b| + k] == b + rest[..k] && (pre + later)[..|b| + k] == pre + later[..k];
      BatchUpdatesConcat(b, rest[..k]);
      BatchUpdatesConcat(pre, later[..k]);
      PutAllConcat(m, BatchUpdates(b), BatchUpdates(rest[..k]));
      PutAllConcat(m, BatchUpdates(pre), BatchUpdates(later[..k]));
    }
  }

  lemma NextKeepsPredicted(s: State, a: Action)
    requires InvPredicted(s) && AsPredicted(s, a) && Next(s, a).Ok?
    ensures InvPredicted(Next(s, a).state)
  {
    hide Effective, Submitted, Inv, ApplyAll, PutAll, Keys, Commit, Reject, Entries, WritesOf, EntriesOf, BatchUpdates,
         BatchCommits, SameWrites, Parts, Predict;
    NextKeepsInv(s, a);
    var s', h, b := Next(s, a).state, s.history, Parts(s.stream);
    if a.Mutate? {
      PredictLonger(h, Mutation(a.id, a.writes, Waiting), b);
      SameEffect(Keys(s.gold), h, s'.history, b);
    } else {
      OnlyStatusChanges(s, a);
      PredictSame(h, s'.history, b);
      SameEffect(Keys(s.gold), h, s'.history, b);
      match a {
        case Accept(us) => AnswerIsEffective(s, Own(h[FirstWaiting(h)].id, us), s'.history);
        case Remote(us) => AnswerIsEffective(s, Others(us), s'.history);
        case Merge(k) => MergeKeepsParts(s.stream, k);
        case DeliverBatch => DeliveryIsEffective(s);
        case _ =>
      }
    }
  }

  lemma OnlyStatusChanges(s: State, a: Action)
    requires Next(s, a).Ok? && !a.Mutate?
    ensures SameWrites(s.history, Next(s, a).state.history)
  {
    hide ApplyAll, Commit, Reject, BatchUpdates, BatchCommits;
  }

  /** A new part at the end of the stream. */
  lemma AnswerIsEffective(s: State, p: Part, h': seq<Mutation>)
    requires InvPredicted(s) && SameWrites(s.history, h') && Effective(Keys(s.gold), h', Parts(s.stream))
    requires Submitted(h', Parts(s.stream))
    requires p.Own? ==> var i := FirstWaiting(s.history);
               && i < |s.history| && p.id == s.history[i].id
               && PutAll(Keys(s.server), p.updates) == PutAll(Keys(s.server), WritesOf(s.history[i]))
    ensures Submitted(h', Parts(s.stream + [[p]])) && Effective(Keys(s.gold), h', Parts(s.stream + [[p]]))
  {
    hide Effective, ApplyAll, PutAll, Keys, Entries, BatchUpdates, Parts, Unique;
    var b, server := Parts(s.stream), Keys(s.server);
    PartsConcat(s.stream, [[p]]);
    PartsOne([p]);
    PartsInFlight(s.stream);
    GoldIsUnique(s);
    ReplayRefines(s.gold, InFlight(s.stream));
    BatchOne(Predict(h', [p])[0]);
    assert Predict(h', [p]) == [Predict(h', [p])[0]];
    if p.Own? {
      var i := FirstWaiting(s.history);
      EntriesOfAt(s.history, i);
      EntriesOfSame(s.history, h', p.id);
      assert h'[i] in h' && h'[i].id == p.id;
    }
    EffectiveLonger(Keys(s.gold), h', b, p, server);
  }

  lemma GoldIsUnique(s: State)
    requires Inv(s)
    ensures Unique(s.gold)
  {
  }

  lemma MergeKeepsParts(stream: seq<Batch>, k: nat)
    requires k + 1 < |stream|
    ensures Parts(stream[..k] + [stream[k] + stream[k + 1]] + stream[k + 2..]) == Parts(stream)
  {
    hide Parts;
    var b, c, front, back := stream[k], stream[k + 1], stream[..k], stream[k + 2..];
    assert stream == front + [b] + [c] + back;
    PartsConcat(front + [b + c], back);
    PartsConcat(front, [b + c]);
    PartsConcat(front + [b] + [c], back);
    PartsConcat(front + [b], [c]);
    PartsConcat(front, [b]);
    PartsOne(b);
    PartsOne(c);
    PartsOne(b + c);
  }

  lemma DeliveryIsEffective(s: State)
    requires InvPredicted(s) && s.stream != []
    ensures Next(s, DeliverBatch).Ok?
    ensures var s', b, m := Next(s, DeliverBatch).state, s.stream[0], Keys(s.gold);
            && ApplyAll(s.gold, BatchUpdates(b)) == Some(s'.gold)
            && PutAll(m, BatchUpdates(b)) == PutAll(m, BatchUpdates(Predict(s.history, b))) == Some(Keys(s'.gold))
            && Submitted(s'.history, Parts(s'.stream))
            && Effective(Keys(s'.gold), s'.history, Parts(s'.stream))
  {
    hide Effective, Inv, ApplyAll, PutAll, Keys, Commit, Entries, EntriesOf, BatchUpdates, BatchCommits, Predict,
         Unique, SameWrites;
    DeliverBatchKeepsInv(s);
    var s', b, rest := Next(s, DeliverBatch).state, s.stream[0], Parts(s.stream[1..]);
    GoldIsUnique(s);
    ReplayRefines(s.gold, BatchUpdates(b));
    EffectiveRest(Keys(s.gold), s.history, b, rest);
    SubmittedRest(s.history, b, rest);
    OnlyStatusChanges(s, DeliverBatch);
    PredictSame(s.history, s'.history, rest);
    SameEffect(Keys(s'.gold), s.history, s'.history, rest);
  }

  lemma SubmittedRest(h: seq<Mutation>, b: Batch, rest: Batch)
    requires Submitted(h, b + rest)
    ensures Submitted(h, b) && Submitted(h, rest)
  {
    var all := b + rest;
    assert forall k | 0 <= k < |b| :: all[k] == b[k];
    assert forall k | 0 <= k < |rest| :: all[|b| + k] == rest[k];
  }

  lemma {:induction false} RunKeepsPredicted(s: State, actions: seq<Action>)
    requires InvPredicted(s) && RunsAsPredicted(s, actions) && Run(s, actions).Ok?
    ensures InvPredicted(Run(s, actions).state)
    decreases |actions|
  {
    if actions != [] {
      hide Next, InvPredicted, AsPredicted;
      NextKeepsPredicted(s, actions[0]);
      RunKeepsPredicted(Next(s, actions[0]).state, actions[1..]);
    }
  }

  // ---------------------------------------------------------------- what a delivery takes off the pending list

  /** The history with the refused ones among its first n mutations rejected. */
  function RejectedUpTo(h: seq<Mutation>, n: nat): seq<Mutation> {
    seq(|h|, i requires 0 <= i < |h| => if i < n && h[i].status == Refused then h[i].(status := Rejected) else h[i])
  }

  /** The place after the last mutation that is committed by these ids. */
  function CommitPoint(h: seq<Mutation>, ids: seq<string>): (n: nat)
    ensures n <= |h| && (n > 0 ==> h[n - 1].status == Accepted && h[n - 1].id in ids)
  {
    if h == [] then 0
    else
      var n := |h| - 1;
      if h[n].status == Accepted && h[n].id in ids then |h| else CommitPoint(h[..n], ids)
  }

  function OwnEntries(h: seq<Mutation>, ids: seq<string>): seq<Pending> {
    if h == [] then []
    else
      var n := |h| - 1;
      OwnEntries(h[..n], ids) + if h[n].status == Accepted && h[n].id in ids then Entries(h[n]) else []
  }

  lemma {:induction false} NothingOwn(h: seq<Mutation>, ids: seq<string>)
    requires forall m | m in h :: m.status != Accepted
    ensures OwnEntries(h, ids) == [] && MarkCommitted(h, ids) == h && CommitPoint(h, ids) == 0
  {
    if h != [] {
      assert h[|h| - 1] in h && forall m | m in h[..|h| - 1] :: m in h;
      NothingOwn(h[..|h| - 1], ids);
    }
  }

  lemma UnansweredNewest(h: seq<Mutation>)
    requires h != []
    ensures var n := |h| - 1;
            Unanswered(h) == match h[n].status
                             case Committed => []
                             case Rejected => Unanswered(h[..n])
                             case _ => Unanswered(h[..n]) + Entries(h[n])
  {
  }

  lemma {:induction false} AllAnswered(h: seq<Mutation>, ids: seq<string>)
    requires InOrder(h) && forall m | m in h :: m.status != Waiting && (m.status == Accepted ==> m.id in ids)
    ensures Unanswered(RejectedUpTo(h, |h|)) == OwnEntries(h, ids)
  {
    if h != [] {
      var n := |h| - 1;
      var x := RejectedUpTo(h, |h|);
      assert h[n] in h && forall m | m in h[..n] :: m in h;
      AllAnswered(h[..n], ids);
      assert x[..n] == RejectedUpTo(h[..n], n) && x[n] == if h[n].status
          == Refused then h[n].(status := Rejected) else h[n];
      UnansweredNewest(x);
      if h[n].status == Committed {
        CommittedBefore(h, ids);
      } else {
        hide Unanswered, InOrder, Entries, RejectedUpTo;
        assert OwnEntries(h, ids) == OwnEntries(h[..n], ids) + if h[n].status == Accepted then Entries(h[n]) else [];
      }
    }
  }

  lemma LastCommits(h: seq<Mutation>, now: seq<string>, later: seq<string>)
    requires WellFormed(h) && InOrder(h) && AcceptedIds(h) == now + later && h != []
    requires h[|h| - 1].status == Accepted && h[|h| - 1].id in now
    ensures Unanswered(RejectedUpTo(h, |h|)) == OwnEntries(h, now) && Unanswered(MarkCommitted(h, now)) == []
    ensures CommitPoint(h, now) == |h|
  {
    hide AcceptedIds, InOrder, WellFormed, Entries;
    var n := |h| - 1;
    AheadAreAnswered(h, now, later);
    AllAnswered(h[..n], now);
    assert RejectedUpTo(h, |h|)[..n] == RejectedUpTo(h[..n], n);
  }

  lemma CommittedBefore(h: seq<Mutation>, now: seq<string>)
    requires InOrder(h) && h != [] && h[|h| - 1].status == Committed
    ensures Unanswered(RejectedUpTo(h, CommitPoint(h, now))) == [] && OwnEntries(h, now) == []
    ensures Unanswered(RejectedUpTo(h, |h|)) == []
    ensures Unanswered(MarkCommitted(h, now)) == []
  {
    forall m | m in h ensures m.status != Accepted {
      var i :| 0 <= i < |h| && h[i] == m;
    }
    NothingOwn(h, now);
    assert RejectedUpTo(h, 0) == h;
  }

  lemma Newest(g: seq<Mutation>, m: Mutation, k: nat, ids: seq<string>)
    requires m.status != Committed && (m.status != Accepted || m.id !in ids)
    ensures k <= |g| ==> RejectedUpTo(g + [m], k) == RejectedUpTo(g, k) + [m]
    ensures MarkCommitted(g + [m], ids) == MarkCommitted(g, ids) + [m]
    ensures CommitPoint(g + [m], ids) == CommitPoint(g, ids) && OwnEntries(g + [m], ids) == OwnEntries(g, ids)
    ensures Unanswered(g + [m]) == Unanswered(g) + if m.status == Rejected then [] else Entries(m)
  {
    assert (g + [m])[..|g|] == g;
    UnansweredNewest(g + [m]);
  }

  lemma LastStays(g: seq<Mutation>, m: Mutation, now: seq<string>)
    requires m.status != Committed && (m.status != Accepted || m.id !in now)
    requires Unanswered(RejectedUpTo(g, CommitPoint(g, now))) == OwnEntries(g, now) + Unanswered(MarkCommitted(g, now))
    ensures var h := g + [m];
            Unanswered(RejectedUpTo(h, CommitPoint(h, now))) == OwnEntries(h, now) + Unanswered(MarkCommitted(h, now))
  {
    hide RejectedUpTo, OwnEntries, MarkCommitted, CommitPoint, Unanswered, Entries;
    var k := CommitPoint(g, now);
    Newest(g, m, k, now);
    Newest(RejectedUpTo(g, k), m, 0, now);
    Newest(MarkCommitted(g, now), m, 0, now);
  }

  lemma PrefixInOrder(h: seq<Mutation>)
    requires h != [] && WellFormed(h) && InOrder(h)
    ensures WellFormed(h[..|h| - 1]) && InOrder(h[..|h| - 1])
  {
    assert forall m | m in h[..|h| - 1] :: m in h;
  }

  lemma NothingHappened(now: seq<string>)
    ensures Unanswered(RejectedUpTo([], CommitPoint([], now)))
        == OwnEntries([], now) + Unanswered(MarkCommitted([], now))
  {
  }

  /** With the refused mutations ahead rejected, the pending list is what is committed and what stays. */
  lemma {:induction false} CommittedThenKept(h: seq<Mutation>, now: seq<string>, later: seq<string>)
    requires WellFormed(h) && InOrder(h) && AcceptedIds(h) == now + later
    ensures Unanswered(RejectedUpTo(h, CommitPoint(h, now))) == OwnEntries(h, now) + Unanswered(MarkCommitted(h, now))
  {
    hide RejectedUpTo, OwnEntries, MarkCommitted, CommitPoint, Unanswered, Entries, InOrder, WellFormed, AcceptedIds;
    if h == [] {
      NothingHappened(now);
    } else if h[|h| - 1].status == Accepted && h[|h| - 1].id in now {
      LastCommits(h, now, later);
      assert OwnEntries(h, now) + [] == OwnEntries(h, now);
    } else if h[|h| - 1].status == Committed {
      CommittedBefore(h, now);
    } else {
      var g, m := h[..|h| - 1], h[|h| - 1];
      PrefixInOrder(h);
      var rest := ShorterAccepted(h, now, later);
      CommittedThenKept(g, now, rest);
      LastStays(g, m, now);
      assert h == g + [m];
    }
  }

  lemma ShorterAccepted(h: seq<Mutation>, now: seq<string>, later: seq<string>) returns (rest: seq<string>)
    requires h != [] && AcceptedIds(h) == now + later
    requires h[|h| - 1].status != Accepted || h[|h| - 1].id !in now
    ensures AcceptedIds(h[..|h| - 1]) == now + rest
  {
    var n := |h| - 1;
    if h[n].status == Accepted {
      var ids := AcceptedIds(h[..n]);
      assert ids + [h[n].id] == now + later && (ids + [h[n].id])[|ids|] == (now + later)[|ids|];
      rest := later[..|later| - 1];
      assert ids == (now + later)[..|ids|] == now + rest;
    } else {
      rest := later;
      assert AcceptedIds(h[..n]) + [] == AcceptedIds(h[..n]);
    }
  }

  /** Everything before a mutation that is now committed has been answered, and what was accepted is committed too. */
  lemma AheadAreAnswered(h: seq<Mutation>, now: seq<string>, later: seq<string>)
    requires WellFormed(h) && InOrder(h) && AcceptedIds(h) == now + later && h != []
    requires h[|h| - 1].status == Accepted && h[|h| - 1].id in now
    ensures InOrder(h[..|h| - 1])
    ensures forall m | m in h[..|h| - 1] :: m.status != Waiting && (m.status == Accepted ==> m.id in now)
  {
    hide AcceptedIds;
    CommitRemovesAccepted(h, now, later);
    var n := |h| - 1;
    forall m | m in h[..n] ensures m.status != Waiting && (m.status == Accepted ==> m.id in now) {
      var i :| 0 <= i < n && h[..n][i] == m;
      assert h[i] == m;
    }
  }

  // ---------------------------------------------------------------- what a delivery applies

  function EntriesOfAll(h: seq<Mutation>, ids: seq<string>): seq<Pending> {
    if ids == [] then [] else EntriesOf(h, ids[0]) + EntriesOfAll(h, ids[1..])
  }

  lemma {:induction false} EntriesOfConcat(h: seq<Mutation>, a: seq<string>, b: seq<string>)
    ensures EntriesOfAll(h, a + b) == EntriesOfAll(h, a) + EntriesOfAll(h, b)
  {
    if a == [] {
      assert a + b == b;
    } else {
      assert (a + b)[1..] == a[1..] + b;
      EntriesOfConcat(h, a[1..], b);
    }
  }

  lemma {:induction false} EntriesOfShorter(h: seq<Mutation>, ids: seq<string>)
    requires h != [] && h[|h| - 1].id !in ids
    ensures EntriesOfAll(h, ids) == EntriesOfAll(h[..|h| - 1], ids)
  {
    if ids != [] {
      EntriesOfShorter(h, ids[1..]);
    }
  }

  lemma {:induction false} OwnEntriesDepend(h: seq<Mutation>, ids: seq<string>, ids': seq<string>)
    requires forall m | m in h :: m.id in ids <==> m.id in ids'
    ensures OwnEntries(h, ids) == OwnEntries(h, ids')
  {
    if h != [] {
      assert h[|h| - 1] in h && forall m | m in h[..|h| - 1] :: m in h;
      OwnEntriesDepend(h[..|h| - 1], ids, ids');
    }
  }

  /** The committed mutations are committed in the order in which they were submitted. */
  lemma {:induction false} OwnEntriesInOrder(h: seq<Mutation>, now: seq<string>, later: seq<string>)
    requires DistinctIds(h) && AcceptedIds(h) == now + later
    ensures OwnEntries(h, now) == EntriesOfAll(h, now)
  {
    if h == [] {
      assert now == [];
    } else {
      hide EntriesOf;
      var n := |h| - 1;
      var g, m := h[..n], h[n];
      if m.status == Accepted && m.id in now {
        var k := |now| - 1;
        LastIsCommitted(h, now, later);
        OwnEntriesInOrder(g, now[..k], []);
        assert now == now[..k] + [m.id] && AcceptedIds(g) + [] == AcceptedIds(g);
        OwnEntriesDepend(g, now, now[..k]);
        EntriesOfConcat(h, now[..k], [m.id]);
        EntriesOfShorter(h, now[..k]);
        EntriesOfAt(h, n);
        assert EntriesOfAll(h, [m.id]) == Entries(m) + EntriesOfAll(h, [m.id][1..]);
      } else {
        var rest := ShorterAccepted(h, now, later);
        OwnEntriesInOrder(g, now, rest);
        NowIsFromFront(g, now, rest, m);
        EntriesOfShorter(h, now);
        assert OwnEntries(g, now) + [] == OwnEntries(g, now);
      }
    }
  }

  lemma LastIsCommitted(h: seq<Mutation>, now: seq<string>, later: seq<string>)
    requires DistinctIds(h) && h != [] && AcceptedIds(h) == now + later
    requires h[|h| - 1].status == Accepted && h[|h| - 1].id in now
    ensures later == [] && now != [] && now[|now| - 1] == h[|h| - 1].id
    ensures AcceptedIds(h[..|h| - 1]) == now[..|now| - 1] && h[|h| - 1].id !in now[..|now| - 1]
    ensures forall m | m in h[..|h| - 1] :: m.id != h[|h| - 1].id
  {
    hide AcceptedIds, DistinctIds;
    var n := |h| - 1;
    assert h == h[..n] + [h[n]];
    AcceptedNewest(h[..n], h[n]);
    AcceptedDiffer(h[..n], h[n]);
    NewestInFront(AcceptedIds(h[..n]), h[n].id, now, later);
  }

  lemma NewestInFront(ids: seq<string>, id: string, now: seq<string>, later: seq<string>)
    requires id !in ids && ids + [id] == now + later && id in now
    ensures later == [] && now == ids + [id] && now[..|now| - 1] == ids
  {
    var j :| 0 <= j < |now| && now[j] == id;
    assert (now + later)[j] == (ids + [id])[j] == id;
    assert forall k | 0 <= k < |ids| :: ids[k] == (ids + [id])[k];
    assert now + [] == now;
  }

  lemma AcceptedNewest(g: seq<Mutation>, m: Mutation)
    ensures AcceptedIds(g + [m]) == AcceptedIds(g) + if m.status == Accepted then [m.id] else []
  {
    assert (g + [m])[..|g|] == g;
  }

  lemma AcceptedDiffer(g: seq<Mutation>, m: Mutation)
    requires DistinctIds(g + [m])
    ensures m.id !in AcceptedIds(g)
    ensures forall m' | m' in g :: m'.id != m.id
  {
    var h := g + [m];
    assert h[|g|] == m;
    forall m' | m' in g ensures m'.id != m.id {
      var i :| 0 <= i < |g| && g[i] == m';
      assert h[i] == m';
    }
    forall id | id in AcceptedIds(g) ensures id != m.id {
      var i := AcceptedFrom(g, id);
      assert g[i] in g;
    }
  }

  lemma NowIsFromFront(g: seq<Mutation>, now: seq<string>, rest: seq<string>, m: Mutation)
    requires AcceptedIds(g) == now + rest && DistinctIds(g + [m])
    ensures m.id !in now
  {
    AcceptedDiffer(g, m);
    assert forall id | id in now :: id in now + rest;
  }

  function OwnUpdates(b: Batch): seq<RowUpdate> {
    if b == [] then [] else (if b[0].Own? then b[0].updates else []) + OwnUpdates(b[1..])
  }

  function OthersUpdates(b: Batch): seq<RowUpdate> {
    if b == [] then [] else (if b[0].Others? then b[0].updates else []) + OthersUpdates(b[1..])
  }

  lemma {:induction false} PredictedParts(h: seq<Mutation>, b: Batch)
    ensures OwnUpdates(Predict(h, b)) == Updates(EntriesOfAll(h, BatchCommits(b)))
    ensures OthersUpdates(Predict(h, b)) == OthersUpdates(b)
  {
    if b != [] {
      var rest := b[1..];
      PredictedParts(h, rest);
      assert Predict(h, b)[1..] == Predict(h, rest);
      if b[0].Own? {
        var ids := BatchCommits(rest);
        assert BatchCommits(b) == [b[0].id] + ids && ([b[0].id] + ids)[1..] == ids;
        UpdatesConcat(EntriesOf(h, b[0].id), EntriesOfAll(h, ids));
      } else {
        assert [] + BatchCommits(rest) == BatchCommits(rest);
      }
    }
  }

  lemma {:induction false} OnlyOwn(b: Batch)
    requires OthersUpdates(b) == []
    ensures BatchUpdates(b) == OwnUpdates(b)
  {
    if b != [] {
      OnlyOwn(b[1..]);
    }
  }

  // ---------------------------------------------------------------- a commit is invisible

  /** How many mutations, of those submitted first, the next delivery resolves. */
  function Resolved(s: State): nat
    requires s.stream != []
  {
    CommitPoint(s.history, BatchCommits(s.stream[0]))
  }

  /** The pending list if the rejects of all refused mutations among the resolved ones had already arrived. */
  function WithoutRefused(s: State): seq<Pending>
    requires s.stream != []
  {
    Unanswered(RejectedUpTo(s.history, Resolved(s)))
  }

  lemma DeliverySplits(s: State)
    requires InvPredicted(s) && s.stream != []
    ensures Next(s, DeliverBatch).Ok?
    ensures var s', b := Next(s, DeliverBatch).state, Predict(s.history, s.stream[0]);
            && ApplyAll(s.gold, BatchUpdates(s.stream[0])) == Some(s'.gold)
            && PutAll(Keys(s.gold), BatchUpdates(b)) == Some(Keys(s'.gold))
            && Updates(WithoutRefused(s)) == OwnUpdates(b) + Updates(s'.pending)
            && OthersUpdates(b) == OthersUpdates(s.stream[0])
            && Unique(s.gold) && Unique(s'.gold)
  {
    hide ApplyAll, PutAll, Keys, Commit, Entries, BatchUpdates, MarkCommitted, WellFormed, InOrder, Unanswered,
         AcceptedIds, Effective, Submitted, Predict, Unique;
    var b, now, h := s.stream[0], BatchCommits(s.stream[0]), s.history;
    var later := Commits(s.stream[1..]);
    DeliverBatchKeepsInv(s);
    DeliveryIsEffective(s);
    CommittedThenKept(h, now, later);
    DistinctInside(h);
    OwnEntriesInOrder(h, now, later);
    PredictedParts(h, b);
    UpdatesConcat(OwnEntries(h, now), Unanswered(MarkCommitted(h, now)));
  }

  /** Both throw, or both show the same rows. */
  ghost predicate SameView(v: Visible, w: Visible) {
    (v.Shows? <==> w.Shows?) && (v.Throws? <==> w.Throws?) && (v.Shows? ==> Keys(v.data) == Keys(w.data))
  }

  lemma DistinctInside(h: seq<Mutation>)
    requires WellFormed(h)
    ensures DistinctIds(h)
  {
  }

  /** Delivering commits is, for the eye, no more than delivering the rejects of the refused mutations ahead. */
  lemma CommitShowsRejects(s: State)
    requires InvPredicted(s) && s.stream != [] && OthersUpdates(s.stream[0]) == []
    ensures Next(s, DeliverBatch).Ok?
    ensures var s' := Next(s, DeliverBatch).state;
            && SameView(View(Some(s'.gold), s'.pending), View(Some(s.gold), WithoutRefused(s)))
            && (Predict(s.history, s.stream[0]) == s.stream[0] ==>
                  View(Some(s'.gold), s'.pending) == View(Some(s.gold), WithoutRefused(s)))
  {
    hide ApplyAll, PutAll, Keys, InvPredicted, Next, WithoutRefused, Predict, Unique;
    DeliverySplits(s);
    var s', b := Next(s, DeliverBatch).state, Predict(s.history, s.stream[0]);
    OnlyOwn(b);
    ApplyAllConcat(s.gold, OwnUpdates(b), Updates(s'.pending));
    PutAllConcat(Keys(s.gold), OwnUpdates(b), Updates(s'.pending));
    ReplayRefines(s.gold, OwnUpdates(b) + Updates(s'.pending));
    ReplayRefines(s'.gold, Updates(s'.pending));
  }

  ghost predicate RefusedAhead(s: State)
    requires s.stream != []
  {
    exists i | 0 <= i < Resolved(s) :: s.history[i].status == Refused
  }

  lemma NothingToReject(s: State)
    requires s.stream != [] && !RefusedAhead(s) && s.pending == Unanswered(s.history)
    ensures WithoutRefused(s) == s.pending
  {
    assert RejectedUpTo(s.history, Resolved(s)) == s.history;
  }

  lemma {:induction false} RejectedTooLate(h: seq<Mutation>, i: nat, j: nat)
    requires i < j < |h| && h[i].status == Refused && h[j].status == Committed
    ensures Unanswered(WithStatus(h, i, Rejected)) == Unanswered(h)
  {
    var n := |h| - 1;
    assert WithStatus(h, i, Rejected)[..n] == WithStatus(h[..n], i, Rejected);
    if j < n {
      RejectedTooLate(h[..n], i, j);
    }
  }

  lemma LateRejectIsInvisible(s: State, i: nat)
    requires Inv(s) && s.stream != []
    requires i < Resolved(s) && s.history[i].status == Refused
    ensures Next(s, DeliverBatch).Ok?
    ensures var s' := Next(s, DeliverBatch).state;
            Next(s', DeliverReject(i)).Ok? && Next(s', DeliverReject(i)).state.pending == s'.pending
  {
    hide ApplyAll, Commit, Reject, Entries, BatchUpdates, BatchCommits, Unanswered, AcceptedIds, InOrder;
    DeliverBatchKeepsInv(s);
    var s' := Next(s, DeliverBatch).state;
    RejectAnswers(s'.history, i);
    RejectedTooLate(s'.history, i, Resolved(s) - 1);
  }

  /**
   In every run in which the server's answers do what was predicted, a delivery of commits, merged or not,
   leaves what is shown unchanged, unless a refused mutation was submitted before one that is committed.  Then
   it shows what the rejects of those would show, and the rejects themselves change nothing when they come.
   Where the answers are the predicted writes themselves, the view is the same to the letter.
   */
  lemma CommitIsInvisible(data: StoreData, actions: seq<Action>)
    requires Unique(data) && RunsAsPredicted(Init(data), actions) && Run(Init(data), actions).Ok?
    requires var s := Run(Init(data), actions).state; s.stream != [] && OthersUpdates(s.stream[0]) == []
    ensures var s := Run(Init(data), actions).state;
            && Next(s, DeliverBatch).Ok?
            && var s', without := Next(s, DeliverBatch).state, View(Some(s.gold), WithoutRefused(s));
            && var after := View(Some(s'.gold), s'.pending);
            && SameView(after, without)
            && (Predict(s.history, s.stream[0]) == s.stream[0] ==> after == without)
            && (!RefusedAhead(s) ==> without == View(Some(s.gold), s.pending))
            && forall i: nat | i < Resolved(s) && s.history[i].status == Refused ::
                 Next(s', DeliverReject(i)).Ok? && Next(s', DeliverReject(i)).state.pending == s'.pending
  {
    hide Run, Next, View, WithoutRefused, Predict, SameView;
    var s := PredictedState(data, actions);
    CommitShowsRejects(s);
    if !RefusedAhead(s) {
      NothingToReject(s);
    }
    forall i: nat | i < Resolved(s) && s.history[i].status == Refused
      ensures var s' := Next(s, DeliverBatch).state;
              Next(s', DeliverReject(i)).Ok? && Next(s', DeliverReject(i)).state.pending == s'.pending
    {
      LateRejectIsInvisible(s, i);
    }
  }

  lemma PredictedState(data: StoreData, actions: seq<Action>) returns (s: State)
    requires Unique(data) && RunsAsPredicted(Init(data), actions) && Run(Init(data), actions).Ok?
    ensures s == Run(Init(data), actions).state && InvPredicted(s) && Inv(s) && s.pending == Unanswered(s.history)
  {
    InitInv(data);
    RunKeepsPredicted(Init(data), actions);
    s := Run(Init(data), actions).state;
  }

  // ---------------------------------------------------------------- updates of others show through

  lemma {:induction false} SwapDisjoint(m: Keyed, us: seq<RowUpdate>, vs: seq<RowUpdate>)
    requires Disjoint(us, vs)
    ensures PutAll(m, us + vs) == PutAll(m, vs + us)
    decreases |us|
  {
    if us == [] {
      assert us + vs == vs && vs + us == vs;
    } else {
      hide PutAll;
      var u, rest := us[0], us[1..];
      assert u in us && forall v | v in rest :: v in us;
      assert us + vs == [u] + (rest + vs) && vs + us == (vs + [u]) + rest && [u] + (vs + rest) == ([u] + vs) + rest;
      MovesPast(m, u, vs);
      PutAllConcat(m, vs + [u], rest);
      PutAllConcat(m, [u] + vs, rest);
      PutAllStep(m, u, rest + vs);
      PutAllStep(m, u, vs + rest);
      if Put(m, u).Some? {
        SwapDisjoint(Put(m, u).value, rest, vs);
      }
    }
  }

  lemma DisjointInside(b: Batch)
    requires b != [] && Disjoint(OthersUpdates(b), OwnUpdates(b))
    ensures var us, own, others := b[0].updates, OwnUpdates(b[1..]), OthersUpdates(b[1..]);
            && Disjoint(others, own) && (b[0].Others? ==> Disjoint(us, own))
            && BatchUpdates(b) == us + BatchUpdates(b[1..])
            && OwnUpdates(b) == (if b[0].Own? then us + own else own)
            && OthersUpdates(b) == (if b[0].Own? then others else us + others)
  {
  }

  lemma SameAfter(m: Keyed, us: seq<RowUpdate>, vs: seq<RowUpdate>, ws: seq<RowUpdate>)
    requires PutAll(m, us).Some? ==> PutAll(PutAll(m, us).value, vs) == PutAll(PutAll(m, us).value, ws)
    ensures PutAll(m, us + vs) == PutAll(m, us + ws)
  {
    PutAllConcat(m, us, vs);
    PutAllConcat(m, us, ws);
  }

  /** Updates can be moved past others of different rows in front of a common rest. */
  lemma MoveOver(m: Keyed, us: seq<RowUpdate>, vs: seq<RowUpdate>, rest: seq<RowUpdate>)
    requires Disjoint(us, vs)
    ensures PutAll(m, us + (vs + rest)) == PutAll(m, vs + (us + rest))
  {
    hide PutAll;
    SwapDisjoint(m, us, vs);
    PutAllConcat(m, us + vs, rest);
    PutAllConcat(m, vs + us, rest);
    assert us + (vs + rest) == (us + vs) + rest && vs + (us + rest) == (vs + us) + rest;
  }

  lemma SiftFirst(m: Keyed, b: Batch)
    requires b != [] && Disjoint(OthersUpdates(b), OwnUpdates(b))
    requires PutAll(m, b[0].updates).Some? ==>
               var m', rest := PutAll(m, b[0].updates).value, b[1..];
               PutAll(m', BatchUpdates(rest)) == PutAll(m', OwnUpdates(rest) + OthersUpdates(rest))
    ensures PutAll(m, BatchUpdates(b)) == PutAll(m, OwnUpdates(b) + OthersUpdates(b))
  {
    hide PutAll, Disjoint, BatchUpdates, OwnUpdates, OthersUpdates;
    var us, rest := b[0].updates, b[1..];
    var own, others := OwnUpdates(rest), OthersUpdates(rest);
    DisjointInside(b);
    SameAfter(m, us, BatchUpdates(rest), own + others);
    if b[0].Own? {
      assert (us + own) + others == us + (own + others);
    } else {
      MoveOver(m, us, own, others);
    }
  }

  /** In a batch the updates of others can be applied last. */
  lemma {:induction false} Sift(m: Keyed, b: Batch)
    requires Disjoint(OthersUpdates(b), OwnUpdates(b))
    ensures PutAll(m, BatchUpdates(b)) == PutAll(m, OwnUpdates(b) + OthersUpdates(b))
    decreases |b|
  {
    if b == [] {
      assert BatchUpdates(b) == [] && OwnUpdates(b) + OthersUpdates(b) == [];
    } else {
      hide PutAll, Disjoint, BatchUpdates, OwnUpdates, OthersUpdates;
      DisjointInside(b);
      if PutAll(m, b[0].updates).Some? {
        Sift(PutAll(m, b[0].updates).value, b[1..]);
      }
      SiftFirst(m, b);
    }
  }

  lemma DisjointParts(us: seq<RowUpdate>, vs: seq<RowUpdate>, ws: seq<RowUpdate>)
    requires Disjoint(us, vs + ws)
    ensures Disjoint(us, vs) && Disjoint(us, ws)
  {
    assert forall v | v in vs :: v in vs + ws;
    assert forall w | w in ws :: w in vs + ws;
  }

  /** Updates that avoid those still to be replayed leave the replay defined, and can be applied after it. */
  lemma ReplayAfterOthers(m: Keyed, others: seq<RowUpdate>, rest: seq<RowUpdate>)
    requires Disjoint(others, rest) && PutAll(m, others).Some? && PutAll(m, rest).Some?
    ensures PutAll(PutAll(m, others).value, rest).Some?
    ensures PutAll(PutAll(m, others).value, rest) == PutAll(PutAll(m, rest).value, others)
  {
    hide PutAll;
    var m' := PutAll(m, others).value;
    var touched := iset a | !Avoids(others, a);
    forall a | a !in touched ensures SameAt(m, m', a) {
      PresenceUnchanged(m, others, a);
    }
    ReplayAgrees(m, m', touched, rest);
    SwapDisjoint(m, others, rest);
    PutAllConcat(m, others, rest);
    PutAllConcat(m, rest, others);
  }

  /**
   A delivery of anything: when the others' updates in it avoid the rows of the mutations that stay, what
   is shown afterwards is what the rejects of the refused mutations ahead would show, with just those
   updates on top.
   */
  lemma DeliveryShowsOthers(s: State)
    requires InvPredicted(s) && s.stream != []
    requires Disjoint(OthersUpdates(s.stream[0]), Updates(WithoutRefused(s)))
    requires View(Some(s.gold), WithoutRefused(s)).Shows?
    ensures Next(s, DeliverBatch).Ok?
    ensures var s' := Next(s, DeliverBatch).state;
            && View(Some(s'.gold), s'.pending).Shows?
            && PutAll(Keys(View(Some(s.gold), WithoutRefused(s)).data), OthersUpdates(s.stream[0]))
               == Some(Keys(View(Some(s'.gold), s'.pending).data))
  {
    hide ApplyAll, PutAll, Next, InvPredicted, WithoutRefused, Keys, Unique, BatchUpdates, OwnUpdates, OthersUpdates,
         Disjoint, Predict;
    DeliverySplits(s);
    var s', b, m := Next(s, DeliverBatch).state, Predict(s.history, s.stream[0]), Keys(s.gold);
    var own, others, rest := OwnUpdates(b), OthersUpdates(b), Updates(s'.pending);
    DisjointParts(others, own, rest);
    ReplayRefines(s.gold, own + rest);
    ReplayRefines(s'.gold, rest);
    PutAllConcat(m, own, rest);
    Sift(m, b);
    PutAllConcat(m, own, others);
    ReplayAfterOthers(PutAll(m, own).value, others, rest);
  }

  /** The same in every run in which the server answers as predicted. */
  lemma OthersShowThrough(data: StoreData, actions: seq<Action>)
    requires Unique(data) && RunsAsPredicted(Init(data), actions) && Run(Init(data), actions).Ok?
    requires var s := Run(Init(data), actions).state;
             && s.stream != [] && Disjoint(OthersUpdates(s.stream[0]), Updates(WithoutRefused(s)))
             && View(Some(s.gold), WithoutRefused(s)).Shows?
    ensures var s := Run(Init(data), actions).state;
            && Next(s, DeliverBatch).Ok?
            && var after := View(Some(Next(s, DeliverBatch).state.gold), Next(s, DeliverBatch).state.pending);
            && after.Shows?
            && PutAll(Keys(View(Some(s.gold), WithoutRefused(s)).data), OthersUpdates(s.stream[0]))
                == Some(Keys(after.data))
  {
    hide Run, Next, View, WithoutRefused;
    var s := PredictedState(data, actions);
    DeliveryShowsOthers(s);
  }

  // ---------------------------------------------------------------- the visible state is always defined

  ghost predicate IsVisible(s: State) {
    View(Some(s.gold), s.pending).Shows?
  }

  /**
   What the users take care of: the others' updates in flight are of rows that no pending mutation touches,
   and nothing is built on a mutation that the server has refused.
   */
  ghost predicate Considerate(s: State) {
    && (forall b | b in s.stream :: Disjoint(OthersUpdates(b), Updates(s.pending)))
    && (forall m | m in s.history && m.status == Refused :: Independent(s.pending, m.id))
  }

  /** A mutation is made on what is shown, so its writes can be applied to that. */
  ghost predicate MadeOnView(s: State, a: Action) {
    a.Mutate? && IsVisible(s) ==>
      ApplyAll(View(Some(s.gold), s.pending).data, WritesOf(Mutation(a.id, a.writes, Waiting))).Some?
  }

  ghost predicate CarefulRun(s: State, actions: seq<Action>)
    decreases |actions|
  {
    && Considerate(s)
    && (actions == []
        || (AsPredicted(s, actions[0]) && MadeOnView(s, actions[0])
            && (Next(s, actions[0]).Ok? ==> CarefulRun(Next(s, actions[0]).state, actions[1..]))))
  }

  lemma {:induction false} RejectIsWithin(pending: seq<Pending>, id: string)
    ensures forall p | p in Reject(pending, id) :: p in pending
  {
    if pending != [] {
      RejectIsWithin(pending[1..], id);
    }
  }

  lemma IndependentFirst(p: Pending, rest: seq<Pending>, id: string)
    ensures Independent([p] + rest, id)
            <==> && Independent(rest, id)
                 && (p.mutationId == id ==> forall q | q in rest
                     && q.mutationId != id :: Disjoint(p.updates, q.updates))
  {
    hide Disjoint;
    var all := [p] + rest;
    assert all[1..] == rest && all[0] == p;
    if Independent(all, id) {
      IndependentRest(all, id);
      forall q | q in rest && p.mutationId == id && q.mutationId != id ensures Disjoint(p.updates, q.updates) {
        var j :| 0 <= j < |rest| && rest[j] == q;
        assert all[j + 1] == q;
      }
    } else {
      var i, j :| 0 <= i < j < |all| && all[i].mutationId == id && all[j].mutationId != id
                  && !Disjoint(all[i].updates, all[j].updates);
      assert all[j] == rest[j - 1] && all[j] in rest;
      if i > 0 {
        assert all[i] == rest[i - 1];
      }
    }
  }

  /** Rejecting one mutation keeps another one independent. */
  lemma {:induction false} StaysIndependent(pending: seq<Pending>, id: string, gone: string)
    requires Independent(pending, id)
    ensures Independent(Reject(pending, gone), id)
  {
    if pending != [] {
      hide Independent, Disjoint;
      var p, rest := pending[0], pending[1..];
      assert pending == [p] + rest;
      IndependentFirst(p, rest, id);
      StaysIndependent(rest, id, gone);
      RejectIsWithin(rest, gone);
      IndependentFirst(p, Reject(rest, gone), id);
      assert [] + Reject(rest, gone) == Reject(rest, gone);
    }
  }

  lemma RejectStaysVisible(gold: StoreData, pending: seq<Pending>, id: string)
    requires Unique(gold) && View(Some(gold), pending).Shows? && Independent(pending, id)
    ensures View(Some(gold), Reject(pending, id)).Shows?
  {
    hide PutAll, ApplyAll, Keys, Unique, Independent, Touches, SameAt, Updates, Reject;
    SameAtReflexive(Keys(gold));
    ReplayRefines(gold, Updates(pending));
    RejectAgrees(Keys(gold), Keys(gold), iset{}, pending, id);
    ReplayRefines(gold, Updates(Reject(pending, id)));
  }

  /** The pending list without the refused mutations ahead is still visible, and holds nothing new. */
  lemma {:induction false} WithoutRefusedStaysVisible(s: State, n: nat)
    requires Inv(s) && Considerate(s) && IsVisible(s) && n <= |s.history|
    ensures var pending := Unanswered(RejectedUpTo(s.history, n));
            && View(Some(s.gold), pending).Shows?
            && (forall p | p in pending :: p in s.pending)
            && forall m | m in s.history && m.status == Refused :: Independent(pending, m.id)
  {
    hide View, Independent, Unanswered, Reject, Unique, Entries;
    var h := s.history;
    if n == 0 {
      assert RejectedUpTo(h, 0) == h;
      InvFacts(s);
    } else {
      WithoutRefusedStaysVisible(s, n - 1);
      InvFacts(s);
      var g := RejectedUpTo(h, n - 1);
      if h[n - 1].status == Refused {
        assert RejectedUpTo(h, n) == WithStatus(g, n - 1, Rejected);
        assert DistinctIds(g) && h[n - 1] in h && g[n - 1] == h[n - 1];
        RejectAnswers(g, n - 1);
        RejectStaysVisible(s.gold, Unanswered(g), h[n - 1].id);
        RejectIsWithin(Unanswered(g), h[n - 1].id);
        forall m | m in h && m.status == Refused ensures Independent(Reject(Unanswered(g), h[n - 1].id), m.id) {
          StaysIndependent(Unanswered(g), m.id, h[n - 1].id);
        }
      } else {
        assert RejectedUpTo(h, n) == g;
      }
    }
  }

  lemma InvFacts(s: State)
    requires Inv(s)
    ensures Unique(s.gold) && DistinctIds(s.history) && s.pending == Unanswered(s.history)
  {
  }

  lemma FewerUpdates(us: seq<RowUpdate>, fewer: seq<Pending>, pending: seq<Pending>)
    requires Disjoint(us, Updates(pending)) && forall p | p in fewer :: p in pending
    ensures Disjoint(us, Updates(fewer))
  {
    forall v | v in Updates(fewer) ensures v in Updates(pending) {
      var p := InUpdates(fewer, v);
      InUpdatesOf(pending, p, v);
    }
  }

  lemma {:induction false} InUpdatesOf(pending: seq<Pending>, p: Pending, u: RowUpdate)
    requires p in pending && u in p.updates
    ensures u in Updates(pending)
  {
    if p != pending[0] {
      InUpdatesOf(pending[1..], p, u);
    }
  }

  lemma NextStaysVisible(s: State, a: Action)
    requires InvPredicted(s) && Considerate(s) && IsVisible(s)
    requires AsPredicted(s, a) && MadeOnView(s, a) && Next(s, a).Ok?
    ensures IsVisible(Next(s, a).state)
  {
    hide ApplyAll, Unique, Independent, Disjoint, Commit, Reject, Effective, Submitted, Entries, BatchUpdates,
         BatchCommits, Inv;
    InvFacts(s);
    match a {
      case Mutate(id, writes) =>
        var m := Mutation(id, writes, Waiting);
        UpdatesConcat(s.pending, Entries(m));
        ApplyAllConcat(s.gold, Updates(s.pending), WritesOf(m));
      case DeliverReject(i) =>
        assert s.history[i] in s.history;
        RejectStaysVisible(s.gold, s.pending, s.history[i].id);
      case DeliverBatch =>
        WithoutRefusedStaysVisible(s, Resolved(s));
        assert s.stream[0] in s.stream;
        FewerUpdates(OthersUpdates(s.stream[0]), WithoutRefused(s), s.pending);
        DeliveryShowsOthers(s);
      case _ =>
    }
  }

  lemma {:induction false} RunStaysVisible(s: State, actions: seq<Action>)
    requires InvPredicted(s) && IsVisible(s) && CarefulRun(s, actions) && Run(s, actions).Ok?
    ensures IsVisible(Run(s, actions).state)
    decreases |actions|
  {
    if actions != [] {
      hide Next, InvPredicted, IsVisible, Considerate, AsPredicted, MadeOnView;
      NextStaysVisible(s, actions[0]);
      NextKeepsPredicted(s, actions[0]);
      RunStaysVisible(Next(s, actions[0]).state, actions[1..]);
    }
  }

  /**
   Reading the store never throws in a run in which mutations are made on what is shown, the server answers
   as predicted, the others' updates in flight stay off the rows of pending mutations, and no mutation
   touches the rows of an earlier one that is refused.
   */
  lemma AlwaysVisible(data: StoreData, actions: seq<Action>)
    requires Unique(data) && CarefulRun(Init(data), actions) && Run(Init(data), actions).Ok?
    ensures var s := Run(Init(data), actions).state; View(Some(s.gold), s.pending).Shows?
  {
    InitInv(data);
    RunStaysVisible(Init(data), actions);
  }
}
