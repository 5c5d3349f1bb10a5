/** The order in which one invocation may issue collaborator calls, as a
    small state machine over the effect trace.

      Idle --CreateTx--> Opened --Load(h)--> InTransaction(h) --Update(h)--> InTransaction(h)
      InTransaction(h) --Commit(h)--> Committed(h) --Enable/Disable--> Syncing --Enable/Disable--> Syncing
      Opened --Rollback(None)--> RolledBack
      InTransaction(h), Committed(h) --Rollback(Some(h))--> RolledBack

    `RolledBack` has no way out.  The lemmas below are consequences of
    acceptance alone, independent of how a trace was produced.
 */
module Protocol {
  import opened Domain

  datatype Stage = Idle | Opened | InTransaction(tx: TxHandle) | Committed(tx: TxHandle) | Syncing | RolledBack

  function Next(s: Stage, e: Event): Option<Stage>
  {
    match e
    case CreateTx => if s.Idle? then Some(Opened) else None
    case Load(tx, _, _) => if s.Opened? then Some(InTransaction(tx)) else None
    case Update(tx, _, _, _) => if s == InTransaction(tx) then Some(s) else None
    case Commit(tx) => if s == InTransaction(tx) then Some(Committed(tx)) else None
    case Rollback(h) =>
      if (s.Opened? && h.None?) || (h.Some? && (s == InTransaction(h.value) || s == Committed(h.value)))
      then Some(RolledBack) else None
    case Enable(_) => if s.Committed? || s.Syncing? then Some(Syncing) else None
    case Disable(_) => if s.Committed? || s.Syncing? then Some(Syncing) else None
  }

  /** The stage reached from `s` after the events of `t`, if every step is allowed. */
  function Walk(s: Stage, t: seq<Event>): Option<Stage>
    decreases |t|
  {
    if |t| == 0 then Some(s)
    else
      match Walk(s, t[..|t| - 1])
      case None => None
      case Some(p) => Next(p, t[|t| - 1])
  }

  predicate Accepted(t: seq<Event>)
  {
    Walk(Idle, t).Some?
  }

  /** How far along the workflow a stage is. */
  function Rank(s: Stage): nat
  {
    match s
    case Idle => 0
    case Opened => 1
    case InTransaction(_) => 2
    case Committed(_) => 3
    case Syncing => 4
    case RolledBack => 5
  }

  /** The events that move the workflow past rank `m - 1` into rank `m`
      without rolling back. */
  predicate Enters(e: Event, m: nat)
  {
    (m == 1 && e.CreateTx?) || (m == 2 && e.Load?) || (m == 3 && e.Commit?)
  }

  /** Every allowed step keeps or raises the rank; one that crosses a
      boundary below `Committed` without rolling back is the matching
      milestone event. */
  lemma NextRank(s: Stage, e: Event)
    requires Next(s, e).Some?
    ensures Rank(s) <= Rank(Next(s, e).value)
    ensures forall m :: Rank(s) < m <= Rank(Next(s, e).value) <= 4 && m <= 3 ==> Enters(e, m)
    ensures e.CreateTx? ==> s == Idle
    ensures e.Load? ==> s == Opened
    ensures e.Commit? ==> s.InTransaction?
    ensures e.Update? ==> s.InTransaction?
    ensures e.Rollback? ==> Next(s, e) == Some(RolledBack)
    ensures (e.Enable? || e.Disable?) ==> (s.Committed? || s.Syncing?) && Next(s, e) == Some(Syncing)
  {
  }

  /** Walking a concatenation is walking its parts in turn. */
  lemma {:induction false} WalkConcat(s: Stage, a: seq<Event>, b: seq<Event>)
    ensures Walk(s, a + b) == (if Walk(s, a).None? then None else Walk(Walk(s, a).value, b))
    decreases |b|
  {
    if |b| == 0 {
      assert a + b == a;
    } else {
      var n := |b| - 1;
      assert (a + b)[..|a + b| - 1] == a + b[..n];
      WalkConcat(s, a, b[..n]);
    }
  }

  /** Walking from a stage with no way out accepts only the empty trace. */
  lemma {:induction false} WalkFromRolledBack(t: seq<Event>)
    requires |t| > 0
    ensures Walk(RolledBack, t).None?
    decreases |t|
  {
    if |t| > 1 {
      WalkFromRolledBack(t[..|t| - 1]);
    }
  }

  /** Every prefix of an accepted trace is accepted. */
  lemma PrefixAccepted(t: seq<Event>, i: nat)
    requires Accepted(t) && i <= |t|
    ensures Accepted(t[..i])
  {
    WalkConcat(Idle, t[..i], t[i..]);
    assert t[..i] + t[i..] == t;
  }

  /** The stage reached after the first `i` events. */
  function StageAt(t: seq<Event>, i: nat): Stage
    requires Accepted(t) && i <= |t|
  {
    PrefixAccepted(t, i);
    Walk(Idle, t[..i]).value
  }

  /** Event `i` is an allowed step from the stage before it. */
  lemma StepAt(t: seq<Event>, i: nat)
    requires Accepted(t) && i < |t|
    ensures Next(StageAt(t, i), t[i]) == Some(StageAt(t, i + 1))
  {
    var u := t[..i + 1];
    assert u[..|u| - 1] == t[..i];
    assert u[|u| - 1] == t[i];
    PrefixAccepted(t, i);
    PrefixAccepted(t, i + 1);
  }

  lemma {:induction false} RankMonotone(t: seq<Event>, i: nat, j: nat)
    requires Accepted(t) && i <= j <= |t|
    ensures Rank(StageAt(t, i)) <= Rank(StageAt(t, j))
    decreases j - i
  {
    if i < j {
      StepAt(t, i);
      NextRank(StageAt(t, i), t[i]);
      RankMonotone(t, i + 1, j);
    }
  }

  /** A rollback, once issued, is the last event. */
  lemma RollbackIsLast(t: seq<Event>, i: nat)
    requires Accepted(t) && i < |t| && t[i].Rollback?
    ensures i == |t| - 1
  {
    StepAt(t, i);
    NextRank(StageAt(t, i), t[i]);
    if i + 1 < |t| {
      WalkConcat(Idle, t[..i + 1], t[i + 1..]);
      assert t[..i + 1] + t[i + 1..] == t;
      WalkFromRolledBack(t[i + 1..]);
    }
  }

  /** The same milestone (transaction created, users loaded, committed,
      rolled back) is never issued twice. */
  lemma MilestoneAtMostOnce(t: seq<Event>, i: nat, j: nat)
    requires Accepted(t) && i < |t| && j < |t|
    requires (t[i].CreateTx? && t[j].CreateTx?) || (t[i].Load? && t[j].Load?)
          || (t[i].Commit? && t[j].Commit?) || (t[i].Rollback? && t[j].Rollback?)
    ensures i == j
  {
    if t[i].Rollback? {
      RollbackIsLast(t, i);
      RollbackIsLast(t, j);
    } else if i < j {
      StepAt(t, i);
      NextRank(StageAt(t, i), t[i]);
      StepAt(t, j);
      NextRank(StageAt(t, j), t[j]);
      RankMonotone(t, i + 1, j);
    } else if j < i {
      StepAt(t, j);
      NextRank(StageAt(t, j), t[j]);
      StepAt(t, i);
      NextRank(StageAt(t, i), t[i]);
      RankMonotone(t, j + 1, i);
    }
  }

  /** A stage of rank `m` (short of a rollback) is reached only through the
      milestone event of rank `m`. */
  lemma {:induction false} MilestoneBefore(t: seq<Event>, i: nat, m: nat)
    requires Accepted(t) && i <= |t|
    requires 1 <= m <= 3 && m <= Rank(StageAt(t, i)) <= 4
    ensures exists j :: 0 <= j < i && Enters(t[j], m)
    decreases i
  {
    if i > 0 {
      StepAt(t, i - 1);
      NextRank(StageAt(t, i - 1), t[i - 1]);
      if Rank(StageAt(t, i - 1)) >= m {
        MilestoneBefore(t, i - 1, m);
      } else {
        assert Enters(t[i - 1], m);
      }
    }
  }

  /** Updates are issued only between the load and the commit. */
  lemma UpdateInsideTransaction(t: seq<Event>, i: nat)
    requires Accepted(t) && i < |t| && t[i].Update?
    ensures exists j :: 0 <= j < i && t[j].Load?
    ensures forall j :: 0 <= j < |t| && t[j].Commit? ==> i < j
  {
    StepAt(t, i);
    NextRank(StageAt(t, i), t[i]);
    MilestoneBefore(t, i, 2);
    forall j | 0 <= j < |t| && t[j].Commit?
      ensures i < j
    {
      StepAt(t, j);
      NextRank(StageAt(t, j), t[j]);
      if j < i {
        RankMonotone(t, j + 1, i);
      }
    }
  }

  /** Authentication calls come only after a commit, and never in a trace
      that rolls back. */
  lemma SyncAfterCommit(t: seq<Event>, i: nat)
    requires Accepted(t) && i < |t| && (t[i].Enable? || t[i].Disable?)
    ensures exists j :: 0 <= j < i && t[j].Commit?
    ensures forall k :: 0 <= k < |t| ==> !t[k].Rollback?
  {
    StepAt(t, i);
    NextRank(StageAt(t, i), t[i]);
    MilestoneBefore(t, i, 3);
    forall k | 0 <= k < |t|
      ensures !t[k].Rollback?
    {
      if t[k].Rollback? {
        RollbackIsLast(t, k);
        StepAt(t, k);
        NextRank(StageAt(t, k), t[k]);
        RankMonotone(t, i + 1, k);
      }
    }
  }
}
