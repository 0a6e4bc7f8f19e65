/**
 * Seeding a frame chunk by chunk across the writers (core/dataframe.py:631-663,
 * 706-767): which rows are sent to which node.
 */
module Seeding {
  import opened Sequences
  import opened Wrappers
  import Registry

  /** Rows sent to a node, with the frame row at which they start. */
  datatype Sent<T> = Sent(node: string, offset: nat, rows: seq<T>)

  const LOCAL := "local"

  function Rows<T>(sent: seq<Sent<T>>): seq<T>
    decreases |sent|
  {
    if sent == [] then [] else Rows(sent[..|sent| - 1]) + sent[|sent| - 1].rows
  }

  /** Non-empty segments, each starting where the ones before it end. */
  ghost predicate Laid<T>(sent: seq<Sent<T>>) {
    forall i :: 0 <= i < |sent| ==> LaidAt(sent, i)
  }

  ghost predicate LaidAt<T>(sent: seq<Sent<T>>, i: nat)
    requires i < |sent|
  {
    sent[i].rows != [] && sent[i].offset == |Rows(sent[..i])|
  }

  /** Every row of a segment belongs to the node it is sent to. */
  ghost predicate ToOwner<T>(s: Sent<T>, owner: nat -> string) {
    forall k :: s.offset <= k < s.offset + |s.rows| ==> owner(k) == s.node
  }

  ghost predicate AllToOwner<T>(sent: seq<Sent<T>>, owner: nat -> string) {
    forall i :: 0 <= i < |sent| ==> ToOwner(sent[i], owner)
  }

  /** Row p is the first of a chunk. */
  ghost predicate StartsChunk<T>(chunks: seq<seq<T>>, p: nat) {
    exists j :: 0 <= j <= |chunks| && p == |Concat(chunks[..j])|
  }

  /** Segments are as long as possible: the next one has another owner or starts a chunk. */
  ghost predicate Longest<T>(sent: seq<Sent<T>>, chunks: seq<seq<T>>) {
    forall i :: 0 <= i < |sent| - 1 ==> sent[i].node != sent[i + 1].node || StartsChunk(chunks, sent[i + 1].offset)
  }

  lemma {:induction false} RowsGrow<T>(sent: seq<Sent<T>>, i: nat, j: nat)
    requires Laid(sent) && i < j <= |sent|
    ensures |Rows(sent[..j])| >= sent[i].offset + |sent[i].rows|
    ensures j < |sent| ==> sent[j].offset >= sent[i].offset + |sent[i].rows|
    decreases j
  {
    assert sent[..j][..j - 1] == sent[..j - 1];
    assert LaidAt(sent, i);
    if j < |sent| {
      assert LaidAt(sent, j);
    }
    if i < j - 1 {
      RowsGrow(sent, i, j - 1);
    }
  }

  /** The segment that holds row r. */
  lemma {:induction false} RowIsSent<T>(sent: seq<Sent<T>>, n: nat, r: nat) returns (i: nat)
    requires Laid(sent) && n <= |sent| && r < |Rows(sent[..n])|
    ensures i < n && sent[i].offset <= r < sent[i].offset + |sent[i].rows|
    ensures sent[i].rows[r - sent[i].offset] == Rows(sent[..n])[r]
    decreases n
  {
    assert sent[..n][..n - 1] == sent[..n - 1];
    assert LaidAt(sent, n - 1);
    if r < |Rows(sent[..n - 1])| {
      i := RowIsSent(sent, n - 1, r);
    } else {
      i := n - 1;
    }
  }

  /** Every row is in exactly one segment, with its own contents. */
  lemma EachRowIsSentOnce<T>(sent: seq<Sent<T>>, r: nat)
    requires Laid(sent) && r < |Rows(sent)|
    ensures exists i :: 0 <= i < |sent| && sent[i].offset <= r < sent[i].offset + |sent[i].rows|
                        && sent[i].rows[r - sent[i].offset] == Rows(sent)[r]
    ensures forall i, j :: 0 <= i < j < |sent| ==>
              !(sent[i].offset <= r < sent[i].offset + |sent[i].rows| && sent[j].offset <= r < sent[j].offset + |sent[j].rows|)
  {
    assert sent[..|sent|] == sent;
    var k := RowIsSent(sent, |sent|, r);
    forall i, j | 0 <= i < j < |sent|
      ensures sent[j].offset >= sent[i].offset + |sent[i].rows|
    {
      RowsGrow(sent, i, j);
    }
  }

  lemma RowsSnoc<T>(sent: seq<Sent<T>>, s: Sent<T>)
    ensures Rows(sent + [s]) == Rows(sent) + s.rows
    ensures Laid(sent) && s.rows != [] && s.offset == |Rows(sent)| ==> Laid(sent + [s])
  {
    assert (sent + [s])[..|sent|] == sent;
    if Laid(sent) && s.rows != [] && s.offset == |Rows(sent)| {
      forall i | 0 <= i < |sent + [s]|
        ensures LaidAt(sent + [s], i)
      {
        assert (sent + [s])[..i] == sent[..i];
        assert i < |sent| ==> LaidAt(sent, i);
      }
    }
  }

  lemma ConcatStep<T>(chunks: seq<seq<T>>, c: nat)
    requires c < |chunks|
    ensures Concat(chunks[..c + 1]) == Concat(chunks[..c]) + chunks[c]
    ensures StartsChunk(chunks, |Concat(chunks[..c])|)
  {
    ConcatAt(chunks, c);
  }

  /** One writer or none: every non-empty chunk is seeded locally. */
  method SeedLocally<T>(chunks: seq<seq<T>>) returns (sent: seq<Sent<T>>, total: nat)
    ensures Rows(sent) == Concat(chunks) && Laid(sent) && total == |Concat(chunks)|
    ensures forall i :: 0 <= i < |sent| ==> sent[i].node == LOCAL
  {
    sent, total := [], 0;
    var c := 0;
    while c < |chunks|
      invariant 0 <= c <= |chunks| && total == |Concat(chunks[..c])|
      invariant Rows(sent) == Concat(chunks[..c]) && Laid(sent)
      invariant forall i :: 0 <= i < |sent| ==> sent[i].node == LOCAL
    {
      ConcatStep(chunks, c);
      if chunks[c] != [] {
        RowsSnoc(sent, Sent(LOCAL, total, chunks[c]));
        sent := sent + [Sent(LOCAL, total, chunks[c])];
        total := total + |chunks[c]|;
      }
      c := c + 1;
    }
    assert chunks[..|chunks|] == chunks;
  }

  /** The end of the longest stretch of the chunk from `start` on that one node owns. */
  method SegmentEnd<T>(chunk: seq<T>, base: nat, start: nat, owner: nat -> string) returns (end: nat)
    requires start < |chunk|
    ensures start < end <= |chunk|
    ensures forall k :: base + start <= k < base + end ==> owner(k) == owner(base + start)
    ensures end < |chunk| ==> owner(base + end) != owner(base + start)
  {
    end := start + 1;
    while end < |chunk|
      invariant start < end <= |chunk|
      invariant forall k :: base + start <= k < base + end ==> owner(k) == owner(base + start)
    {
      if owner(base + end) != owner(base + start) {
        return;
      }
      end := end + 1;
    }
  }

  /** `_seed_distributed` over several writers: each chunk is cut where the owner changes. */
  method SeedDistributed<T>(chunks: seq<seq<T>>, owner: nat -> string) returns (sent: seq<Sent<T>>, total: nat)
    ensures Rows(sent) == Concat(chunks) && Laid(sent) && total == |Concat(chunks)|
    ensures AllToOwner(sent, owner) && Longest(sent, chunks)
  {
    hide Laid, Longest, StartsChunk, Concat, Rows, ToOwner;
    sent, total := [], 0;
    NothingSent<T>(chunks);
    assert chunks[..0] == [];
    var c := 0;
    while c < |chunks|
      invariant 0 <= c <= |chunks| && total == |Concat(chunks[..c])|
      invariant Rows(sent) == Concat(chunks[..c]) && Laid(sent)
      invariant AllToOwner(sent, owner) && Longest(sent, chunks)
    {
      ConcatStep(chunks, c);
      var chunk := chunks[c];
      var start := 0;
      while start < |chunk|
        invariant 0 <= start <= |chunk|
        invariant Rows(sent) == Concat(chunks[..c]) + chunk[..start] && Laid(sent)
        invariant AllToOwner(sent, owner) && Longest(sent, chunks)
        invariant 0 < start < |chunk| ==> sent != [] && sent[|sent| - 1].node != owner(total + start)
      {
        var end := SegmentEnd(chunk, total, start, owner);
        var s := Sent(owner(total + start), total + start, chunk[start..end]);
        Stretch(s, owner);
        RowsSnoc(sent, s);
        assert chunk[..start] + chunk[start..end] == chunk[..end];
        LongestSnoc(sent, s, chunks);
        sent := sent + [s];
        start := end;
      }
      assert chunk[..|chunk|] == chunk;
      total := total + |chunk|;
      c := c + 1;
    }
    assert chunks[..|chunks|] == chunks;
  }

  lemma Stretch<T>(s: Sent<T>, owner: nat -> string)
    requires forall k :: s.offset <= k < s.offset + |s.rows| ==> owner(k) == s.node
    ensures ToOwner(s, owner)
  {
  }

  lemma NothingSent<T>(chunks: seq<seq<T>>)
    ensures Laid<T>([]) && Longest<T>([], chunks) && Rows<T>([]) == Concat<T>([]) == []
  {
  }

  lemma LongestSnoc<T>(sent: seq<Sent<T>>, s: Sent<T>, chunks: seq<seq<T>>)
    requires Longest(sent, chunks)
    requires (sent != [] && sent[|sent| - 1].node != s.node) || StartsChunk(chunks, s.offset)
    ensures Longest(sent + [s], chunks)
  {
  }

  // ------------------------------------------------------------- with the registry

  /** `_get_owner_node_id` against a registry that does not change. */
  function OwnerIn(nodes: Registry.Nodes): nat -> string {
    r => match Registry.OwnerOf(nodes, r) case Some(id) => id case None => LOCAL
  }

  /** `_seed_distributed`. */
  method Seed<T>(chunks: seq<seq<T>>, nodes: Registry.Nodes) returns (sent: seq<Sent<T>>, total: nat)
    ensures Rows(sent) == Concat(chunks) && Laid(sent) && total == |Concat(chunks)|
    ensures if |Registry.Owners(nodes)| <= 1 then forall i :: 0 <= i < |sent| ==> sent[i].node == LOCAL
            else AllToOwner(sent, OwnerIn(nodes)) && Longest(sent, chunks)
  {
    if |Registry.Owners(nodes)| <= 1 {
      sent, total := SeedLocally(chunks);
    } else {
      sent, total := SeedDistributed(chunks, OwnerIn(nodes));
    }
  }

  /**
   * When the writers tile the slots, each row is sent once, and to the one node whose
   * slots it falls in.
   */
  lemma SeededToSoleOwner<T>(sent: seq<Sent<T>>, nodes: Registry.Nodes, i: nat, r: nat)
    requires Registry.Tiled(nodes) && Registry.Owners(nodes) != {}
    requires AllToOwner(sent, OwnerIn(nodes)) && i < |sent|
    requires sent[i].offset <= r < sent[i].offset + |sent[i].rows|
    ensures Registry.SoleOwner(nodes, sent[i].node, r)
  {
    Registry.EveryRowHasOneOwner(nodes, r);
    assert ToOwner(sent[i], OwnerIn(nodes));
    assert OwnerIn(nodes)(r) == sent[i].node;
  }
}
