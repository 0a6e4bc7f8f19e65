/**
 * The cell lock manager (core/lock_manager.py): all-or-nothing acquisition over two
 * maps, one from cells to owners and one from owners to cells.
 */
module Locks {
  type Owners = map<string, string>

  function Members(ids: seq<string>): set<string> { set id | id in ids }

  predicate Free(owners: Owners, tx: string, ids: seq<string>) {
    forall id :: id in ids && id in owners ==> owners[id] == tx
  }

  /** The cells `ids` given to `tx`. */
  function Given(owners: Owners, tx: string, ids: set<string>): Owners {
    map id | id in owners.Keys + ids :: if id in ids then tx else owners[id]
  }

  function Granted(owners: Owners, tx: string, ids: seq<string>): Owners { Given(owners, tx, Members(ids)) }

  lemma GiveOne(owners: Owners, tx: string, ids: set<string>, id: string)
    ensures Given(owners, tx, ids + {id}) == Given(owners, tx, ids)[id := tx]
  {
  }

  lemma GiveNone(owners: Owners, tx: string)
    ensures Given(owners, tx, {}) == owners
  {
  }

  function Released(owners: Owners, tx: string): Owners {
    map id | id in owners && owners[id] != tx :: owners[id]
  }

  /** Releasing undoes a grant that took only free cells, and no other owner notices. */
  lemma ReleaseUndoesGrant(owners: Owners, tx: string, ids: seq<string>)
    requires Free(owners, tx, ids) && forall id :: id in owners ==> owners[id] != tx
    ensures Released(Granted(owners, tx, ids), tx) == owners
  {
  }

  class LockManager {
    var cellToTx: Owners
    var txToCells: map<string, set<string>>

    /** The two maps are inverse to each other. */
    ghost predicate Valid()
      reads this
    {
      && (forall id :: id in cellToTx ==> cellToTx[id] in txToCells && id in txToCells[cellToTx[id]])
      && (forall tx, id :: tx in txToCells && id in txToCells[tx] ==> id in cellToTx && cellToTx[id] == tx)
    }

    constructor ()
      ensures Valid() && cellToTx == map[]
    {
      cellToTx, txToCells := map[], map[];
    }

    /** `acquire`: every requested cell, or none. */
    method Acquire(tx: string, ids: seq<string>) returns (ok: bool)
      requires Valid()
      modifies this
      ensures Valid()
      ensures ok == Free(old(cellToTx), tx, ids)
      ensures ok <==> forall id :: id in ids && id in old(cellToTx) ==> old(cellToTx)[id] == tx
      ensures ok ==> forall id :: id in cellToTx <==> id in ids || id in old(cellToTx)
      ensures ok ==> forall id :: id in cellToTx ==> cellToTx[id] == if id in ids then tx else old(cellToTx)[id]
      ensures cellToTx == if ok then Granted(old(cellToTx), tx, ids) else old(cellToTx)
    {
      var todo := Members(ids);
      if exists id :: id in todo && id in cellToTx && cellToTx[id] != tx {
        return false;
      }
      GiveNone(cellToTx, tx);
      assert Members(ids) - todo == {};
      while todo != {}
        invariant todo <= Members(ids) && txToCells == old(txToCells)
        invariant cellToTx == Given(old(cellToTx), tx, Members(ids) - todo)
      {
        var id :| id in todo;
        GiveOne(old(cellToTx), tx, Members(ids) - todo, id);
        assert Members(ids) - todo + {id} == Members(ids) - (todo - {id});
        cellToTx := cellToTx[id := tx];
        todo := todo - {id};
      }
      assert Members(ids) - {} == Members(ids);
      var held := if tx in txToCells then txToCells[tx] else {};
      txToCells := txToCells[tx := held + Members(ids)];
      return true;
    }

    /** `release`. */
    method Release(tx: string)
      requires Valid()
      modifies this
      ensures Valid() && tx !in txToCells
      ensures cellToTx == Released(old(cellToTx), tx)
      ensures forall id :: id in cellToTx <==> id in old(cellToTx) && old(cellToTx)[id] != tx
      ensures forall id :: id in cellToTx ==> cellToTx[id] == old(cellToTx)[id]
    {
      var cells := if tx in txToCells then txToCells[tx] else {};
      txToCells := txToCells - {tx};
      var todo := cells;
      while todo != {}
        invariant todo <= cells && txToCells == old(txToCells) - {tx}
        invariant cellToTx == old(cellToTx) - (cells - todo)
      {
        var id :| id in todo;
        if id in cellToTx && cellToTx[id] == tx {
          cellToTx := cellToTx - {id};
        }
        todo := todo - {id};
      }
    }
  }
}
