/**
 * The write-ahead log (core/wal.py:52-132): append, compaction, range reads and
 * recovery from its file.
 */
module Wal {
  import opened Sequences
  import opened Transactions

  datatype Entry<T> = Entry(lsn: nat, txId: string, ops: seq<T>, state: TxState)

  /** The entries in memory and the next sequence number. */
  datatype Log<T> = Log(entries: seq<Entry<T>>, nextLsn: nat)

  /** Consecutive numbers up to the next one: what was dropped was a prefix. */
  ghost predicate Contiguous<T>(g: Log<T>) {
    && |g.entries| < g.nextLsn
    && forall i :: 0 <= i < |g.entries| ==> g.entries[i].lsn == g.nextLsn - |g.entries| + i
  }

  function Appended<T>(g: Log<T>, txId: string, ops: seq<T>, state: TxState): Log<T> {
    Log(g.entries + [Entry(g.nextLsn, txId, ops, state)], g.nextLsn + 1)
  }

  /** `entries[-k:]` when there are more than k; with k = 0 that slice is the whole list. */
  function KeepLast<T>(es: seq<Entry<T>>, k: int): seq<Entry<T>> {
    if |es| <= k then es
    else if k > 0 then es[|es| - k..]
    else if -k <= |es| then es[-k..]
    else []
  }

  function NotBefore<T>(es: seq<Entry<T>>, lsn: int): (r: seq<Entry<T>>)
    ensures |r| <= |es|
  {
    if es == [] then [] else (if es[0].lsn >= lsn then [es[0]] else []) + NotBefore(es[1..], lsn)
  }

  /** The entries after `lsn`: the specification of `get_since`. */
  function Since<T>(es: seq<Entry<T>>, lsn: int): seq<Entry<T>> { NotBefore(es, lsn + 1) }

  lemma {:induction false} NotBeforeIsSuffix<T>(es: seq<Entry<T>>, lsn: int, cut: nat)
    requires cut <= |es|
    requires forall i :: 0 <= i < cut ==> es[i].lsn < lsn
    requires forall i :: cut <= i < |es| ==> es[i].lsn >= lsn
    ensures NotBefore(es, lsn) == es[cut..]
  {
    if es != [] {
      if cut == 0 {
        NotBeforeIsSuffix(es[1..], lsn, 0);
        assert es[1..][0..] == es[1..] && es[0..] == [es[0]] + es[1..];
      } else {
        NotBeforeIsSuffix(es[1..], lsn, cut - 1);
        assert es[1..][cut - 1..] == es[cut..];
      }
    }
  }

  /** In a contiguous log, the entries from `lsn` on. */
  lemma NotBeforeCut<T>(g: Log<T>, lsn: int) returns (cut: nat)
    requires Contiguous(g)
    ensures cut <= |g.entries| && NotBefore(g.entries, lsn) == g.entries[cut..]
    ensures forall i :: 0 <= i < |g.entries| ==> (i >= cut <==> g.entries[i].lsn >= lsn)
  {
    var first := g.nextLsn - |g.entries|;
    cut := if lsn <= first then 0 else if lsn >= g.nextLsn then |g.entries| else lsn - first;
    NotBeforeIsSuffix(g.entries, lsn, cut);
  }

  /** Dropping entries from the front keeps the log contiguous. */
  lemma CutKeepsContiguous<T>(g: Log<T>, cut: nat)
    requires Contiguous(g) && cut <= |g.entries|
    ensures Contiguous(g.(entries := g.entries[cut..]))
  {
    var kept := g.entries[cut..];
    forall i | 0 <= i < |kept|
      ensures kept[i].lsn == g.nextLsn - |kept| + i
    {
      assert kept[i] == g.entries[cut + i];
    }
  }

  /** Compaction by count keeps the log contiguous, whatever the count. */
  lemma CompactKeepsContiguous<T>(g: Log<T>, k: int)
    requires Contiguous(g)
    ensures Contiguous(g.(entries := KeepLast(g.entries, k)))
  {
    var n := |g.entries|;
    var cut := if n <= k then 0 else if k > 0 then n - k else if -k <= n then -k else n;
    assert KeepLast(g.entries, k) == g.entries[cut..];
    CutKeepsContiguous(g, cut);
  }

  /** And so does compaction by number. */
  lemma CompactBeforeKeepsContiguous<T>(g: Log<T>, lsn: int)
    requires Contiguous(g)
    ensures Contiguous(g.(entries := NotBefore(g.entries, lsn)))
  {
    var cut := NotBeforeCut(g, lsn);
    CutKeepsContiguous(g, cut);
  }

  /** What `compact` reports as removed. */
  function Reported(n: nat, keepLast: int): int { if n <= keepLast then 0 else n - keepLast }

  /**
   * The report is the number of entries dropped if and only if some are to be kept, or
   * none are and there are none: `compact(0)` drops nothing and reports everything.
   */
  lemma CompactReportsIff<T>(es: seq<Entry<T>>, keepLast: int)
    ensures Reported(|es|, keepLast) == |es| - |KeepLast(es, keepLast)| <==>
            keepLast > 0 || (keepLast == 0 && es == [])
    ensures keepLast == 0 ==> KeepLast(es, keepLast) == es && Reported(|es|, keepLast) == |es|
  {
    if 0 < -keepLast <= |es| {
      assert |KeepLast(es, keepLast)| == |es| + keepLast;
    }
  }

  /** If the entry after `lsn` is still there, no later one is missing. */
  lemma NoGapBehind<T>(g: Log<T>, lsn: nat)
    requires Contiguous(g) && exists e :: e in g.entries && e.lsn == lsn + 1
    ensures Since(g.entries, lsn) == g.entries[|g.entries| - (g.nextLsn - 1 - lsn)..]
    ensures |Since(g.entries, lsn)| == g.nextLsn - 1 - lsn <= |g.entries|
  {
    var cut := NotBeforeCut(g, lsn + 1);
    var i :| 0 <= i < |g.entries| && g.entries[i].lsn == lsn + 1;
    assert i > 0 ==> g.entries[i - 1].lsn == lsn;
  }

  /** Trimming the memory leaves it a tail of the file. */
  lemma TrimmedLines<T>(g: Log<T>, lines: seq<Entry<T>>, lsn: int)
    requires Contiguous(g)
    ensures Contiguous(g.(entries := NotBefore(g.entries, lsn)))
    ensures |g.entries| <= |lines| && g.entries == lines[|lines| - |g.entries|..] ==>
              NotBefore(g.entries, lsn) == lines[|lines| - |NotBefore(g.entries, lsn)|..]
  {
    hide NotBefore;
    var cut := NotBeforeCut(g, lsn);
  }

  class WriteAheadLog<T> {
    var entries: seq<Entry<T>>
    var nextLsn: nat
    /** The lines of the log file; `persisted` if there is one. */
    var lines: seq<Entry<T>>
    const persisted: bool

    function View(): Log<T>
      reads this
    {
      Log(entries, nextLsn)
    }

    /** Memory holds a contiguous tail of the numbers given out; the file holds all of them. */
    ghost predicate Valid()
      reads this
    {
      && Contiguous(View())
      && (persisted ==>
            && |lines| == nextLsn - 1
            && (forall i :: 0 <= i < |lines| ==> lines[i].lsn == i + 1)
            && entries == lines[|lines| - |entries|..])
    }

    constructor (persisted: bool)
      ensures Valid() && View() == Log([], 1) && this.persisted == persisted
    {
      this.persisted := persisted;
      entries, nextLsn, lines := [], 1, [];
    }

    /** `append`. */
    method Append(txId: string, ops: seq<T>, state: TxState) returns (lsn: nat)
      requires Valid()
      modifies this
      ensures Valid()
      ensures lsn == old(nextLsn) && View() == Appended(old(View()), txId, ops, state)
    {
      lsn := nextLsn;
      var e := Entry(lsn, txId, ops, state);
      assert persisted ==> entries + [e] == (lines + [e])[|lines| - |entries|..];
      nextLsn := nextLsn + 1;
      entries := entries + [e];
      if persisted {
        lines := lines + [e];
      }
    }

    /** `compact`; returns what the source reports as removed. */
    method Compact(keepLast: int) returns (removed: int)
      requires Valid()
      modifies `entries
      ensures Valid() && View() == old(View()).(entries := KeepLast(old(entries), keepLast))
      ensures removed == Reported(|old(entries)|, keepLast)
    {
      CompactKeepsContiguous(View(), keepLast);
      if |entries| <= keepLast {
        return 0;
      }
      removed := |entries| - keepLast;
      entries := KeepLast(entries, keepLast);
    }

    /** `compact_before_lsn`. */
    method CompactBefore(lsn: int) returns (removed: nat)
      requires Valid()
      modifies `entries
      ensures Valid() && View() == old(View()).(entries := NotBefore(old(entries), lsn))
      ensures removed == |old(entries)| - |entries|
    {
      var before := |entries|;
      TrimmedLines(View(), lines, lsn);
      entries := KeepFrom(entries, lsn);
      removed := before - |entries|;
    }

    /** `get_since`: a bisection, then a slice. */
    method GetSince(lsn: int) returns (r: seq<Entry<T>>)
      requires Valid()
      ensures r == Since(entries, lsn)
    {
      var lo, hi := 0, |entries|;
      while lo < hi
        invariant 0 <= lo <= hi <= |entries|
        invariant forall i :: 0 <= i < lo ==> entries[i].lsn <= lsn
        invariant forall i :: hi <= i < |entries| ==> entries[i].lsn > lsn
      {
        var mid := (lo + hi) / 2;
        if lsn < entries[mid].lsn {
          hi := mid;
        } else {
          lo := mid + 1;
        }
      }
      NotBeforeIsSuffix(entries, lsn + 1, lo);
      r := entries[lo..];
    }

    /** A restart: `_recover_from_disk`. Everything ever appended is back, even what was compacted. */
    method Recover()
      requires Valid()
      modifies this
      ensures Valid() && lines == old(lines)
      ensures persisted ==> View() == Log(lines, old(nextLsn))
      ensures !persisted ==> View() == Log([], 1)
    {
      entries, nextLsn := [], 1;
      if persisted {
        var i := 0;
        while i < |lines|
          invariant 0 <= i <= |lines| && lines == old(lines) && nextLsn == 1
          invariant entries == lines[..i]
        {
          entries := entries + [lines[i]];
          i := i + 1;
        }
        nextLsn := |entries| + 1;
      }
    }
  }

  /** The list comprehension of `compact_before_lsn`. */
  method KeepFrom<T>(es: seq<Entry<T>>, lsn: int) returns (kept: seq<Entry<T>>)
    ensures kept == NotBefore(es, lsn)
  {
    kept := [];
    var i := 0;
    while i < |es|
      invariant 0 <= i <= |es| && kept + NotBefore(es[i..], lsn) == NotBefore(es, lsn)
    {
      var e := es[i];
      assert es[i..] == [e] + es[i + 1..];
      if e.lsn >= lsn {
        kept := kept + [e];
      }
      i := i + 1;
    }
  }
}
