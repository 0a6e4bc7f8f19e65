/**
 * The life of a transaction (core/transaction.py): the transition table, and the
 * methods that move along it.
 */
module Transactions {

  datatype TxState =
    PENDING | VALIDATING | LOCKED | APPLYING | COMMITTED | SYNCING | SYNCED | FAILED | ROLLED_BACK

  function Allowed(s: TxState): set<TxState> {
    match s
    case PENDING => {VALIDATING, FAILED}
    case VALIDATING => {LOCKED, FAILED}
    case LOCKED => {APPLYING, FAILED}
    case APPLYING => {COMMITTED, FAILED}
    case COMMITTED => {SYNCING, FAILED}
    case SYNCING => {SYNCED, FAILED}
    case SYNCED => {FAILED}
    case FAILED => {ROLLED_BACK}
    case ROLLED_BACK => {}
  }

  /** States visited one after the other, each allowed after the one before. */
  ghost predicate Path(p: seq<TxState>) {
    p != [] && forall i :: 0 <= i < |p| - 1 ==> p[i + 1] in Allowed(p[i])
  }

  function Rank(s: TxState): nat {
    match s
    case PENDING => 0
    case VALIDATING => 1
    case LOCKED => 2
    case APPLYING => 3
    case COMMITTED => 4
    case SYNCING => 5
    case SYNCED => 6
    case FAILED => 7
    case ROLLED_BACK => 8
  }

  lemma {:induction false} PathClimbs(p: seq<TxState>, i: nat, j: nat)
    requires Path(p) && i < j < |p|
    ensures Rank(p[j]) >= Rank(p[i]) + j - i
  {
    if i < j - 1 {
      PathClimbs(p, i, j - 1);
    }
    assert p[j - 1 + 1] in Allowed(p[j - 1]);
  }

  /** The states a record of transitions goes through, from PENDING on. */
  function Visits(ts: seq<(TxState, TxState)>): (p: seq<TxState>)
    ensures |p| == |ts| + 1
  {
    [PENDING] + seq(|ts|, i requires 0 <= i < |ts| => ts[i].1)
  }

  /** The record is a path along the table, and it ends in the state. */
  ghost predicate LeadsTo(ts: seq<(TxState, TxState)>, state: TxState) {
    && Path(Visits(ts)) && Visits(ts)[|ts|] == state
    && forall i :: 0 <= i < |ts| ==> ts[i].0 == Visits(ts)[i]
  }

  lemma LeadsToSnoc(ts: seq<(TxState, TxState)>, state: TxState, next: TxState)
    requires LeadsTo(ts, state) && next in Allowed(state)
    ensures LeadsTo(ts + [(state, next)], next)
  {
    var p, q := Visits(ts), Visits(ts + [(state, next)]);
    assert q == p + [next];
    forall i | 0 <= i < |q| - 1
      ensures q[i + 1] in Allowed(q[i])
    {
      if i < |p| - 1 {
        assert p[i + 1] in Allowed(p[i]);
      }
    }
  }

  const COMMIT_PATH := [PENDING, VALIDATING, LOCKED, APPLYING, COMMITTED, SYNCING, SYNCED]

  /** A path that does not end in failure is the beginning of the commit path. */
  lemma {:induction false} UnfailedPath(p: seq<TxState>)
    requires Path(p) && p[0] == PENDING && p[|p| - 1] !in {FAILED, ROLLED_BACK}
    ensures |p| <= 7 && p == COMMIT_PATH[..|p|]
  {
    var k := |p| - 1;
    if k > 0 {
      assert p[k - 1 + 1] in Allowed(p[k - 1]);
      assert Path(p[..k]);
      UnfailedPath(p[..k]);
      assert p == p[..k] + [p[k]];
    }
  }

  class Transaction {
    var state: TxState
    /** The recorded transitions. */
    var transitions: seq<(TxState, TxState)>

    /** The state is what the record of transitions leads to. */
    ghost predicate Valid()
      reads this
    {
      LeadsTo(transitions, state)
    }

    constructor ()
      ensures Valid() && state == PENDING && transitions == []
    {
      state, transitions := PENDING, [];
    }

    /** `transition`; false where the source raises InvalidTransitionError. */
    method Transition(next: TxState) returns (ok: bool)
      modifies this
      ensures ok <==> next in Allowed(old(state))
      ensures ok ==> state == next && transitions == old(transitions) + [(old(state), next)]
      ensures !ok ==> state == old(state) && transitions == old(transitions)
      ensures old(Valid()) ==> Valid()
    {
      if next !in Allowed(state) {
        return false;
      }
      if Valid() {
        LeadsToSnoc(transitions, state, next);
      }
      transitions := transitions + [(state, next)];
      state := next;
      return true;
    }

    /**
     * `fail`: ends in ROLLED_BACK from every state but ROLLED_BACK itself, from which
     * it falls back to FAILED without a record: then, and only then, the record no
     * longer leads to the state.
     */
    method Fail()
      modifies this
      ensures state == if old(state) == ROLLED_BACK then FAILED else ROLLED_BACK
      ensures transitions == old(transitions) +
              (if old(state) == ROLLED_BACK then []
               else (if old(state) == FAILED then [] else [(old(state), FAILED)]) + [(FAILED, ROLLED_BACK)])
      ensures old(Valid()) ==> (Valid() <==> old(state) != ROLLED_BACK)
    {
      if state != FAILED {
        var ok := Transition(FAILED);
        if !ok {
          state := FAILED;
          return;
        }
      }
      var _ := Transition(ROLLED_BACK);
    }
  }

  /** As long as the record leads to the state, no state was entered twice. */
  lemma NoStateTwice(tx: Transaction, i: nat, j: nat)
    requires tx.Valid() && i < j <= |tx.transitions|
    ensures Visits(tx.transitions)[i] != Visits(tx.transitions)[j]
  {
    PathClimbs(Visits(tx.transitions), i, j);
  }

  /** A transaction that never failed has taken every step of the commit path, in order. */
  lemma UnfailedFollowsCommitPath(tx: Transaction)
    requires tx.Valid() && tx.state !in {FAILED, ROLLED_BACK}
    ensures |tx.transitions| < 7 && Visits(tx.transitions) == COMMIT_PATH[..|tx.transitions| + 1]
  {
    UnfailedPath(Visits(tx.transitions));
  }
}
