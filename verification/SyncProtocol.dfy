/**
 The replication protocol between one client and the server, as a state machine.  The client submits
 mutations and applies them optimistically; the server answers them in submission order, either by
 applying row updates that travel with a commit or by a reject that may overtake them.  The updates
 of other users interleave freely, and adjacent batches may be merged, so a commit can acknowledge
 several mutations at once.
 */
module SyncProtocol {
  import opened Prelude
  import opened OptimisticStore
  import opened KeyedStore
  import opened StoreAlgebra

  datatype Status =
    | Waiting    // not yet handled by the server
    | Accepted   // applied by the server; its updates and its commit are in flight
    | Committed  // its commit has reached the client
    | Refused    // rejected by the server; the reject is in flight
    | Rejected   // the reject has reached the client

  /** Each write of a mutator appends one pending entry; all of them carry the mutation's id. */
  datatype Mutation = Mutation(id: string, writes: seq<seq<RowUpdate>>, status: Status)

  /** Row updates on their way to the client: those that answer one of its mutations, or those of others. */
  datatype Part = Own(id: string, updates: seq<RowUpdate>) | Others(updates: seq<RowUpdate>)

  /** The parts of a batch arrive together, and after their rows one commit of all their mutations. */
  type Batch = seq<Part>

  function BatchUpdates(b: Batch): seq<RowUpdate> {
    if b == [] then [] else b[0].updates + BatchUpdates(b[1..])
  }

  function BatchCommits(b: Batch): seq<string> {
    if b == [] then [] else (if b[0].Own? then [b[0].id] else []) + BatchCommits(b[1..])
  }

  datatype State = State(
    gold: StoreData, pending: seq<Pending>,
    server: StoreData, history: seq<Mutation>, stream: seq<Batch>)

  datatype Action =
    | Mutate(id: string, writes: seq<seq<RowUpdate>>)
    | Accept(updates: seq<RowUpdate>)
    | Refuse
    | Remote(updates: seq<RowUpdate>)
    | Merge(at: nat)
    | DeliverBatch
    | DeliverReject(index: nat)

  datatype Outcome = Disabled | ClientThrows | Ok(state: State)

  function Entries(m: Mutation): seq<Pending> {
    seq(|m.writes|, i requires 0 <= i < |m.writes| => Pending(m.writes[i], m.id))
  }

  function FirstWaiting(h: seq<Mutation>): (i: nat)
    ensures i <= |h| && (i < |h| ==> h[i].status == Waiting)
    ensures forall j | 0 <= j < i :: h[j].status != Waiting
  {
    if h == [] then 0
    else if h[0].status == Waiting then 0
    else 1 + FirstWaiting(h[1..])
  }

  function WithStatus(h: seq<Mutation>, i: nat, status: Status): seq<Mutation>
    requires i < |h|
  {
    h[i := h[i].(status := status)]
  }

  function MarkCommitted(h: seq<Mutation>, ids: seq<string>): seq<Mutation> {
    seq(|h|, i requires 0 <= i < |h| =>
      if h[i].status == Accepted && h[i].id in ids then h[i].(status := Committed) else h[i])
  }

  function Next(s: State, a: Action): Outcome {
    match a
    case Mutate(id, writes) =>
      if writes == [] || exists m | m in s.history :: m.id == id then Disabled
      else
        var m := Mutation(id, writes, Waiting);
        Ok(s.(pending := s.pending + Entries(m), history := s.history + [m]))
    case Accept(us) =>
      var i := FirstWaiting(s.history);
      if i == |s.history| || ApplyAll(s.server, us).None? then Disabled
      else Ok(s.(server := ApplyAll(s.server, us).value,
                 history := WithStatus(s.history, i, Accepted),
                 stream := s.stream + [[Own(s.history[i].id, us)]]))
    case Refuse =>
      var i := FirstWaiting(s.history);
      if i == |s.history| then Disabled
      else Ok(s.(history := WithStatus(s.history, i, Refused)))
    case Remote(us) =>
      if ApplyAll(s.server, us).None? then Disabled
      else Ok(s.(server := ApplyAll(s.server, us).value, stream := s.stream + [[Others(us)]]))
    case Merge(k) =>
      if k + 1 >= |s.stream| then Disabled
      else
        Ok(s.(stream := s.stream[..k] + [s.stream[k] + s.stream[k + 1]] + s.stream[k + 2..]))
    case DeliverBatch =>
      if s.stream == [] then Disabled
      else
        var b := s.stream[0];
        var gold, ids := ApplyAll(s.gold, BatchUpdates(b)), BatchCommits(b);
        if gold.None? then ClientThrows
        else Ok(s.(gold := gold.value, pending := Commit(s.pending, ids),
                   history := MarkCommitted(s.history, ids), stream := s.stream[1..]))
    case DeliverReject(i) =>
      if i >= |s.history| || s.history[i].status != Refused then Disabled
      else Ok(s.(pending := Reject(s.pending, s.history[i].id), history := WithStatus(s.history, i, Rejected)))
  }

  function Run(s: State, actions: seq<Action>): Outcome
    decreases |actions|
  {
    if actions == [] then Ok(s)
    else
      match Next(s, actions[0])
      case Ok(s') => Run(s', actions[1..])
      case other => other
  }

  function Init(data: StoreData): State {
    State(data, [], data, [], [])
  }

  ghost predicate IsWaiting(h: seq<Mutation>) {
    exists i :: 0 <= i < |h| && h[i].status == Waiting
  }

  /** Exactly when each step can be taken. */
  lemma StepIsPossibleIff(s: State, a: Action)
    ensures Next(s, a) != Disabled
            <==> match a
                 case Mutate(id, writes) => writes != [] && forall i | 0 <= i < |s.history| :: s.history[i].id != id
                 case Accept(us) => IsWaiting(s.history) && ApplyAll(s.server, us).Some?
                 case Refuse => IsWaiting(s.history)
                 case Remote(us) => ApplyAll(s.server, us).Some?
                 case Merge(k) => |s.stream| >= k + 2
                 case DeliverBatch => |s.stream| >= 1
                 case DeliverReject(i) => i < |s.history| && s.history[i].status == Refused
  {
    hide ApplyAll;
    if a.Mutate? {
      assert (exists m | m in s.history :: m.id == a.id)
          <==> exists i :: 0 <= i < |s.history| && s.history[i].id == a.id;
    }
  }

  // ---------------------------------------------------------------- what a state means

  function InFlight(stream: seq<Batch>): seq<RowUpdate> {
    if stream == [] then [] else BatchUpdates(stream[0]) + InFlight(stream[1..])
  }

  function Commits(stream: seq<Batch>): seq<string> {
    if stream == [] then [] else BatchCommits(stream[0]) + Commits(stream[1..])
  }

  function AcceptedIds(h: seq<Mutation>): seq<string> {
    if h == [] then []
    else
      var n := |h| - 1;
      AcceptedIds(h[..n]) + if h[n].status == Accepted then [h[n].id] else []
  }

  /** The entries the client still waits for: those after the last commit it saw, minus the rejects it saw. */
  function Unanswered(h: seq<Mutation>): seq<Pending> {
    if h == [] then []
    else
      var n := |h| - 1;
      match h[n].status
      case Committed => []
      case Rejected => Unanswered(h[..n])
      case _ => Unanswered(h[..n]) + Entries(h[n])
  }

  ghost predicate DistinctIds(h: seq<Mutation>) {
    forall i, j | 0 <= i < j < |h| :: h[i].id != h[j].id
  }

  ghost predicate WellFormed(h: seq<Mutation>) {
    DistinctIds(h) && forall m | m in h :: m.writes != []
  }

  /** The server answers in submission order, and commits reach the client in that order. */
  ghost predicate InOrder(h: seq<Mutation>) {
    && (forall i, j | 0 <= i < j < |h| && h[i].status == Waiting :: h[j].status == Waiting)
    && (forall i, j | 0 <= i < j < |h| && h[j].status == Committed :: h[i].status != Accepted)
  }

  ghost predicate Inv(s: State) {
    && WellFormed(s.history)
    && InOrder(s.history)
    && Unique(s.gold)
    && s.pending == Unanswered(s.history)
    && Commits(s.stream) == AcceptedIds(s.history)
    && ApplyAll(s.gold, InFlight(s.stream)) == Some(s.server)
  }

  // ---------------------------------------------------------------- streams

  lemma {:induction false} StreamConcat(p: seq<Batch>, q: seq<Batch>)
    ensures InFlight(p + q) == InFlight(p) + InFlight(q)
    ensures Commits(p + q) == Commits(p) + Commits(q)
  {
    if p == [] {
      assert p + q == q;
    } else {
      assert (p + q)[1..] == p[1..] + q;
      StreamConcat(p[1..], q);
    }
  }

  lemma StreamOne(b: Batch)
    ensures InFlight([b]) == BatchUpdates(b) && Commits([b]) == BatchCommits(b)
  {
    assert [b][1..] == [];
  }

  lemma BatchOne(p: Part)
    ensures BatchUpdates([p]) == p.updates
    ensures BatchCommits([p]) == if p.Own? then [p.id] else []
  {
    assert [p][1..] == [];
  }

  lemma {:induction false} BatchUpdatesConcat(b: Batch, c: Batch)
    ensures BatchUpdates(b + c) == BatchUpdates(b) + BatchUpdates(c)
  {
    if b == [] {
      assert b + c == c;
    } else {
      assert (b + c)[1..] == b[1..] + c;
      BatchUpdatesConcat(b[1..], c);
    }
  }

  lemma {:induction false} BatchCommitsConcat(b: Batch, c: Batch)
    ensures BatchCommits(b + c) == BatchCommits(b) + BatchCommits(c)
  {
    if b == [] {
      assert b + c == c;
    } else {
      assert (b + c)[1..] == b[1..] + c && (b + c)[0] == b[0];
      BatchCommitsConcat(b[1..], c);
      var first := if b[0].Own? then [b[0].id] else [];
      assert first + (BatchCommits(b[1..]) + BatchCommits(c)) == first + BatchCommits(b[1..]) + BatchCommits(c);
    }
  }

  lemma MergeKeepsStream(stream: seq<Batch>, k: nat)
    requires k + 1 < |stream|
    ensures var merged := stream[..k] + [stream[k] + stream[k + 1]] + stream[k + 2..];
            InFlight(merged) == InFlight(stream) && Commits(merged) == Commits(stream)
  {
    hide InFlight, Commits, BatchUpdates, BatchCommits;
    var b, c := stream[k], stream[k + 1];
    var front, back := stream[..k], stream[k + 2..];
    StreamConcat(front + [b + c], back);
    StreamConcat(front, [b + c]);
    assert stream == front + [b] + [c] + back;
    StreamConcat(front + [b] + [c], back);
    StreamConcat(front + [b], [c]);
    StreamConcat(front, [b]);
    StreamOne(b);
    StreamOne(c);
    StreamOne(b + c);
    BatchUpdatesConcat(b, c);
    BatchCommitsConcat(b, c);
  }

  // ---------------------------------------------------------------- histories

  lemma {:induction false} AcceptedFrom(h: seq<Mutation>, id: string) returns (i: nat)
    requires id in AcceptedIds(h)
    ensures i < |h| && h[i].id == id && h[i].status == Accepted
  {
    var n := |h| - 1;
    if h[n].status == Accepted && h[n].id == id {
      i := n;
    } else {
      i := AcceptedFrom(h[..n], id);
    }
  }

  lemma {:induction false} AcceptedHas(h: seq<Mutation>, i: nat)
    requires i < |h| && h[i].status == Accepted
    ensures h[i].id in AcceptedIds(h)
  {
    if i < |h| - 1 {
      AcceptedHas(h[..|h| - 1], i);
    }
  }

  /** A change of status that neither adds nor removes an accepted mutation. */
  lemma {:induction false} AcceptedUnchanged(h: seq<Mutation>, i: nat, status: Status)
    requires i < |h| && h[i].status != Accepted && status != Accepted
    ensures AcceptedIds(WithStatus(h, i, status)) == AcceptedIds(h)
  {
    var n, h' := |h| - 1, WithStatus(h, i, status);
    if i < n {
      assert h'[..n] == WithStatus(h[..n], i, status);
      AcceptedUnchanged(h[..n], i, status);
    } else {
      assert h'[..n] == h[..n];
    }
  }

  /** The first waiting mutation is accepted after every other accepted one. */
  lemma {:induction false} AcceptedLast(h: seq<Mutation>, i: nat)
    requires i < |h| && forall j | i <= j < |h| :: h[j].status == Waiting
    ensures AcceptedIds(WithStatus(h, i, Accepted)) == AcceptedIds(h) + [h[i].id]
  {
    var n, h' := |h| - 1, WithStatus(h, i, Accepted);
    if i < n {
      assert h'[..n] == WithStatus(h[..n], i, Accepted);
      AcceptedLast(h[..n], i);
    } else {
      assert h'[..n] == h[..n];
    }
  }

  lemma {:induction false} AnswerKeepsUnanswered(h: seq<Mutation>, i: nat, status: Status)
    requires i < |h| && h[i].status == Waiting && (status == Accepted || status == Refused)
    ensures Unanswered(WithStatus(h, i, status)) == Unanswered(h)
  {
    var n, h' := |h| - 1, WithStatus(h, i, status);
    if i < n {
      assert h'[..n] == WithStatus(h[..n], i, status);
      AnswerKeepsUnanswered(h[..n], i, status);
    } else {
      assert h'[..n] == h[..n];
      assert Entries(h'[n]) == Entries(h[n]);
    }
  }

  lemma {:induction false} UnansweredFrom(h: seq<Mutation>, p: Pending) returns (i: nat)
    requires p in Unanswered(h)
    ensures i < |h| && h[i].id == p.mutationId
  {
    var n := |h| - 1;
    if p in Unanswered(h[..n]) {
      i := UnansweredFrom(h[..n], p);
    } else {
      i := n;
    }
  }

  lemma RejectEntries(m: Mutation, id: string)
    ensures Reject(Entries(m), id) == if m.id == id then [] else Entries(m)
  {
    if m.id == id {
      RejectOwn(Entries(m), id);
    } else {
      RejectAbsent(Entries(m), id);
    }
  }

  lemma RejectNone(id: string)
    ensures Reject([], id) == []
  {
  }

  lemma RejectForeign(h: seq<Mutation>, id: string)
    requires forall m | m in h :: m.id != id
    ensures Reject(Unanswered(h), id) == Unanswered(h)
  {
    forall p | p in Unanswered(h) ensures p.mutationId != id {
      var i := UnansweredFrom(h, p);
      assert h[i] in h;
    }
    RejectAbsent(Unanswered(h), id);
  }

  lemma {:induction false} RejectAnswers(h: seq<Mutation>, i: nat)
    requires DistinctIds(h) && i < |h| && h[i].status == Refused
    ensures Unanswered(WithStatus(h, i, Rejected)) == Reject(Unanswered(h), h[i].id)
  {
    hide Reject, Entries;
    var n, h', id := |h| - 1, WithStatus(h, i, Rejected), h[i].id;
    RejectNone(id);
    RejectConcat(Unanswered(h[..n]), Entries(h[n]), id);
    RejectEntries(h[n], id);
    if i < n {
      assert h'[..n] == WithStatus(h[..n], i, Rejected);
      RejectAnswers(h[..n], i);
    } else {
      assert h'[..n] == h[..n];
      RejectForeign(h[..n], id);
      assert Unanswered(h[..n]) + [] == Unanswered(h[..n]);
    }
  }

  // ---------------------------------------------------------------- delivering a commit

  lemma {:induction false} CommitEntries(pending: seq<Pending>, m: Mutation, k: nat, ids: seq<string>)
    requires k <= |m.writes|
    ensures Commit(pending + Entries(m)[..k], ids)
            == if k > 0 && m.id in ids then [] else Commit(pending, ids) + Entries(m)[..k]
  {
    hide LastAcked, Commit;
    if k == 0 {
      assert pending + Entries(m)[..0] == pending && Commit(pending, ids) + Entries(m)[..0] == Commit(pending, ids);
    } else {
      CommitEntries(pending, m, k - 1, ids);
      var e := Entries(m)[k - 1];
      assert pending + Entries(m)[..k] == (pending + Entries(m)[..k - 1]) + [e];
      CommitNewest(pending + Entries(m)[..k - 1], e, ids);
    }
  }

  lemma WholeEntries(m: Mutation)
    ensures Entries(m)[..|m.writes|] == Entries(m)
    ensures forall s :: Entries(m.(status := s)) == Entries(m)
  {
    forall s ensures Entries(m.(status := s)) == Entries(m) {
      var m' := m.(status := s);
      assert m'.writes == m.writes && m'.id == m.id;
    }
  }

  lemma {:induction false} CommitAnswers(h: seq<Mutation>, ids: seq<string>)
    requires WellFormed(h)
    requires forall m | m in h && m.id in ids :: m.status == Accepted
    ensures Unanswered(MarkCommitted(h, ids)) == Commit(Unanswered(h), ids)
  {
    hide Commit, Entries, LastAcked;
    CommitNone(ids);
    if h != [] {
      var n, h' := |h| - 1, MarkCommitted(h, ids);
      var m := h[n];
      assert h'[..n] == MarkCommitted(h[..n], ids);
      assert WellFormed(h[..n]) && m in h;
      CommitAnswers(h[..n], ids);
      CommitEntries(Unanswered(h[..n]), m, |m.writes|, ids);
      WholeEntries(m);
    }
  }

  lemma {:induction false} CommitRemovesAccepted(h: seq<Mutation>, now: seq<string>, later: seq<string>)
    requires DistinctIds(h) && AcceptedIds(h) == now + later
    ensures AcceptedIds(MarkCommitted(h, now)) == later
    ensures forall i, j | 0 <= i < j < |h| && h[i].status == Accepted && h[j].status == Accepted ::
              h[j].id in now ==> h[i].id in now
  {
    if h != [] {
      var n, h' := |h| - 1, MarkCommitted(h, now);
      var g, m := h[..n], h[n];
      assert h'[..n] == MarkCommitted(g, now);
      if m.status != Accepted {
        assert AcceptedIds(g) + [] == AcceptedIds(g);
        CommitRemovesAccepted(g, now, later);
      } else if later == [] {
        assert now + later == now;
        forall i | 0 <= i < |h| && h[i].status == Accepted ensures h[i].id in now {
          AcceptedHas(h, i);
        }
        NoneAccepted(h');
      } else {
        var k := |later| - 1;
        assert AcceptedIds(g) == now + later[..k] by {
          assert (now + later)[..|now| + k] == now + later[..k];
        }
        assert m.id == (now + later)[|now| + k] == later[k];
        if m.id in now {
          var i := AcceptedFrom(g, m.id);
        }
        CommitRemovesAccepted(g, now, later[..k]);
        assert later == later[..k] + [later[k]];
      }
    }
  }

  lemma {:induction false} NoneAccepted(h: seq<Mutation>)
    requires forall i | 0 <= i < |h| :: h[i].status != Accepted
    ensures AcceptedIds(h) == []
  {
    if h != [] {
      NoneAccepted(h[..|h| - 1]);
    }
  }

  // ---------------------------------------------------------------- the invariant

  lemma DeliverBatchKeepsInv(s: State)
    requires Inv(s) && s.stream != []
    ensures Next(s, DeliverBatch).Ok? && Inv(Next(s, DeliverBatch).state)
  {
    hide ApplyAll, Unique, Commit, InOrder, WellFormed, MarkCommitted, Unanswered, AcceptedIds, BatchUpdates,
        BatchCommits;
    var b, rest, h := s.stream[0], s.stream[1..], s.history;
    ApplyAllConcat(s.gold, BatchUpdates(b), InFlight(rest));
    ReplayRefines(s.gold, BatchUpdates(b));
    DeliverKeepsHistory(h, BatchCommits(b), Commits(rest));
  }

  lemma DeliverKeepsHistory(h: seq<Mutation>, now: seq<string>, later: seq<string>)
    requires WellFormed(h) && InOrder(h) && AcceptedIds(h) == now + later
    ensures var h' := MarkCommitted(h, now);
            && WellFormed(h') && InOrder(h')
            && Unanswered(h') == Commit(Unanswered(h), now)
            && AcceptedIds(h') == later
  {
    hide AcceptedIds, Unanswered, Commit;
    CommitRemovesAccepted(h, now, later);
    forall m | m in h && m.id in now ensures m.status == Accepted {
      var i := AcceptedFrom(h, m.id);
      var j :| 0 <= j < |h| && h[j] == m;
    }
    CommitAnswers(h, now);
    var h' := MarkCommitted(h, now);
    forall m | m in h' ensures m.writes != [] {
      var j :| 0 <= j < |h'| && h'[j] == m;
      assert h[j] in h;
    }
  }

  lemma NextKeepsInv(s: State, a: Action)
    requires Inv(s)
    ensures !Next(s, a).ClientThrows?
    ensures Next(s, a).Ok? ==> Inv(Next(s, a).state)
  {
    if a.DeliverBatch? {
      if s.stream != [] {
        DeliverBatchKeepsInv(s);
      }
    } else if Next(s, a).Ok? {
      hide ApplyAll, Unique, Commit, Reject, Unanswered, AcceptedIds, InFlight, Commits, WellFormed, InOrder, Entries,
           BatchUpdates, BatchCommits;
      var h := s.history;
      match a {
        case Mutate(id, writes) => MutateKeepsHistory(h, Mutation(id, writes, Waiting));
        case Accept(us') =>
          var i := FirstWaiting(h);
          WaitingToTheEnd(h, i);
          AcceptedLast(h, i);
          AnswerKeepsUnanswered(h, i, Accepted);
          StatusKeepsOrder(h, i, Accepted);
          ExtendStream(s, [Own(h[i].id, us')]);
          BatchOne(Own(h[i].id, us'));
        case Refuse =>
          var i := FirstWaiting(h);
          AcceptedUnchanged(h, i, Refused);
          AnswerKeepsUnanswered(h, i, Refused);
          StatusKeepsOrder(h, i, Refused);
        case Remote(us') =>
          ExtendStream(s, [Others(us')]);
          BatchOne(Others(us'));
          assert AcceptedIds(h) + [] == AcceptedIds(h);
        case Merge(k) => MergeKeepsStream(s.stream, k);
        case DeliverReject(i) =>
          AcceptedUnchanged(h, i, Rejected);
          RejectAnswers(h, i);
          StatusKeepsOrder(h, i, Rejected);
      }
    }
  }

  lemma WaitingToTheEnd(h: seq<Mutation>, i: nat)
    requires InOrder(h) && i < |h| && h[i].status == Waiting
    ensures forall j | i <= j < |h| :: h[j].status == Waiting
  {
  }

  lemma ExtendStream(s: State, b: Batch)
    requires ApplyAll(s.gold, InFlight(s.stream)) == Some(s.server)
    ensures Commits(s.stream + [b]) == Commits(s.stream) + BatchCommits(b)
    ensures ApplyAll(s.gold, InFlight(s.stream + [b])) == ApplyAll(s.server, BatchUpdates(b))
  {
    StreamConcat(s.stream, [b]);
    StreamOne(b);
    ApplyAllConcat(s.gold, InFlight(s.stream), BatchUpdates(b));
  }

  lemma MutateKeepsHistory(h: seq<Mutation>, m: Mutation)
    requires WellFormed(h) && InOrder(h)
    requires m.status == Waiting && m.writes != [] && forall m' | m' in h :: m'.id != m.id
    ensures WellFormed(h + [m]) && InOrder(h + [m])
    ensures Unanswered(h + [m]) == Unanswered(h) + Entries(m)
    ensures AcceptedIds(h + [m]) == AcceptedIds(h)
  {
    assert (h + [m])[..|h|] == h;
    forall i | 0 <= i < |h| ensures h[i].id != m.id {
      assert h[i] in h;
    }
  }

  lemma StatusKeepsOrder(h: seq<Mutation>, i: nat, status: Status)
    requires WellFormed(h) && InOrder(h) && i < |h|
    requires || (h[i].status == Waiting && i == FirstWaiting(h) && status in {Accepted, Refused})
             || (h[i].status == Refused && status == Rejected)
    ensures WellFormed(WithStatus(h, i, status)) && InOrder(WithStatus(h, i, status))
  {
    var h' := WithStatus(h, i, status);
    forall m | m in h' ensures m.writes != [] {
      var j :| 0 <= j < |h'| && h'[j] == m;
      assert h[j] in h;
    }
  }

  lemma {:induction false} RunKeepsInv(s: State, actions: seq<Action>)
    requires Inv(s)
    ensures !Run(s, actions).ClientThrows?
    ensures Run(s, actions).Ok? ==> Inv(Run(s, actions).state)
    decreases |actions|
  {
    if actions != [] {
      NextKeepsInv(s, actions[0]);
      if Next(s, actions[0]).Ok? {
        RunKeepsInv(Next(s, actions[0]).state, actions[1..]);
      }
    }
  }

  lemma InitInv(data: StoreData)
    requires Unique(data)
    ensures Inv(Init(data))
  {
  }

  // ---------------------------------------------------------------- the theorems

  ghost predicate Quiet(s: State) {
    s.stream == [] && forall m | m in s.history :: m.status == Committed || m.status == Rejected
  }

  lemma {:induction false} AnsweredLeavesNothing(h: seq<Mutation>)
    requires forall m | m in h :: m.status == Committed || m.status == Rejected
    ensures Unanswered(h) == []
  {
    if h != [] {
      assert h[|h| - 1] in h;
      AnsweredLeavesNothing(h[..|h| - 1]);
    }
  }

  /**
   In every run, whatever the interleaving: the client never fails to apply a committed update; its
   pending list is the unanswered mutations in submission order; its committed data catches up with
   the server when the updates in flight are applied, so with none in flight it shows the unanswered
   mutations replayed over the server's data; and once everything is answered it shows that data itself.
   */
  lemma Convergence(data: StoreData, actions: seq<Action>)
    requires Unique(data)
    ensures !Run(Init(data), actions).ClientThrows?
    ensures Run(Init(data), actions).Ok? ==>
              var s := Run(Init(data), actions).state;
              && s.pending == Unanswered(s.history)
              && ApplyAll(s.gold, InFlight(s.stream)) == Some(s.server)
              && (s.stream == [] ==> View(Some(s.gold), s.pending) == View(Some(s.server), Unanswered(s.history)))
              && (Quiet(s) ==> s.pending == [] && View(Some(s.gold), s.pending) == Shows(s.server))
  {
    InitInv(data);
    RunKeepsInv(Init(data), actions);
    if Run(Init(data), actions).Ok? {
      var s := Run(Init(data), actions).state;
      if Quiet(s) {
        AnsweredLeavesNothing(s.history);
      }
    }
  }

  /** Row keys stay unique in the committed data, and in the visible data whenever it is defined. */
  lemma KeysStayUnique(data: StoreData, actions: seq<Action>)
    requires Unique(data) && Run(Init(data), actions).Ok?
    ensures var s := Run(Init(data), actions).state;
            && Unique(s.gold)
            && (View(Some(s.gold), s.pending).Shows? ==>
                  Unique(View(Some(s.gold), s.pending).data)
                  && PutAll(Keys(s.gold), Updates(s.pending)) == Some(Keys(View(Some(s.gold), s.pending).data)))
  {
    InitInv(data);
    RunKeepsInv(Init(data), actions);
    var s := Run(Init(data), actions).state;
    ReplayRefines(s.gold, Updates(s.pending));
  }

  lemma {:induction false} UnansweredHas(h: seq<Mutation>, i: nat)
    requires InOrder(h) && i < |h| && (h[i].status == Waiting || h[i].status == Accepted)
    ensures forall p | p in Entries(h[i]) :: p in Unanswered(h)
  {
    var n := |h| - 1;
    if i < n {
      assert InOrder(h[..n]) && h[..n][i] == h[i];
      UnansweredHas(h[..n], i);
    }
  }

  /** In every run no write of a mutation that is unanswered, or whose commit is in flight, is ever lost. */
  lemma UnresolvedIsPending(data: StoreData, actions: seq<Action>, i: nat)
    requires Unique(data) && Run(Init(data), actions).Ok?
    ensures var s := Run(Init(data), actions).state;
            i < |s.history| && (s.history[i].status == Waiting || s.history[i].status == Accepted) ==>
              forall k | 0 <= k < |s.history[i].writes| ::
                Pending(s.history[i].writes[k], s.history[i].id) in s.pending
  {
    hide Run, Entries;
    InitInv(data);
    RunKeepsInv(Init(data), actions);
    var s := Run(Init(data), actions).state;
    if i < |s.history| && (s.history[i].status == Waiting || s.history[i].status == Accepted) {
      UnansweredHas(s.history, i);
      EntriesHave(s.history[i]);
    }
  }

  lemma EntriesHave(m: Mutation)
    ensures forall k | 0 <= k < |m.writes| :: Pending(m.writes[k], m.id) in Entries(m)
  {
    forall k | 0 <= k < |m.writes| ensures Pending(m.writes[k], m.id) in Entries(m) {
      assert Entries(m)[k] == Pending(m.writes[k], m.id);
    }
  }

  /**
   From any reachable state in which the server has answered everything, delivering what is in flight
   succeeds and leaves the client showing exactly the server's data.
   */
  lemma Drain(s: State) returns (actions: seq<Action>)
    requires Inv(s) && forall m | m in s.history :: m.status != Waiting
    ensures Run(s, actions).Ok?
    ensures var s' := Run(s, actions).state;
            Quiet(s') && s'.server == s.server && s'.pending == [] && View(Some(s'.gold), s'.pending) == Shows(s.server)
    decreases |s.stream|, |RefusedIn(s.history)|, 1
  {
    if s.stream != [] {
      DeliverBatchKeepsInv(s);
      actions := DrainAfter(s, DeliverBatch);
    } else if i: nat :| i < |s.history| && s.history[i].status == Refused {
      actions := DrainAfter(s, DeliverReject(i));
    } else {
      actions := [];
      forall m | m in s.history ensures m.status != Accepted && m.status != Refused {
        var i :| 0 <= i < |s.history| && s.history[i] == m;
        if m.status == Accepted {
          AcceptedHas(s.history, i);
        }
      }
      AnsweredLeavesNothing(s.history);
    }
  }

  lemma DrainAfter(s: State, a: Action) returns (actions: seq<Action>)
    requires Inv(s) && forall m | m in s.history :: m.status != Waiting
    requires (a == DeliverBatch || a.DeliverReject?) && Next(s, a).Ok?
    ensures Run(s, actions).Ok?
    ensures var s' := Run(s, actions).state;
            Quiet(s') && s'.server == s.server && s'.pending == [] && View(Some(s'.gold), s'.pending) == Shows(s.server)
    decreases |s.stream|, |RefusedIn(s.history)|, 0
  {
    hide Next, Inv, Quiet, View, RefusedIn;
    NextKeepsInv(s, a);
    DeliveryProgress(s, a);
    var rest := Drain(Next(s, a).state);
    actions := [a] + rest;
    assert actions[1..] == rest;
  }

  ghost function RefusedIn(h: seq<Mutation>): set<nat> {
    set i: nat | i < |h| && h[i].status == Refused
  }

  lemma DeliveryProgress(s: State, a: Action)
    requires (a == DeliverBatch || a.DeliverReject?) && Next(s, a).Ok?
    requires forall m | m in s.history :: m.status != Waiting
    ensures var s' := Next(s, a).state;
            && s'.server == s.server
            && (forall m | m in s'.history :: m.status != Waiting)
            && (|s'.stream| < |s.stream|
                || (|s'.stream| == |s.stream| && |RefusedIn(s'.history)| < |RefusedIn(s.history)|))
  {
    hide RefusedIn, ApplyAll, Commit, Reject;
    var s' := Next(s, a).state;
    forall m | m in s'.history ensures m.status != Waiting {
      var j :| 0 <= j < |s'.history| && s'.history[j] == m;
      assert s.history[j] in s.history;
    }
    if a.DeliverReject? {
      RejectShrinks(s.history, a.index);
    }
  }

  lemma RejectShrinks(h: seq<Mutation>, i: nat)
    requires i < |h| && h[i].status == Refused
    ensures |RefusedIn(WithStatus(h, i, Rejected))| < |RefusedIn(h)|
  {
    assert i in RefusedIn(h);
    assert RefusedIn(WithStatus(h, i, Rejected)) == RefusedIn(h) - {i};
  }
}
