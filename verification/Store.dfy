/**
 * The state of core/write_node.py: one shared table for the columns of many frames,
 * with a row count, row identities and an id counter for each frame.
 */
module Store {
  import opened Wrappers
  import opened CellIds
  import opened Sequences

  datatype Value = Null | Val(text: string)

  /** A row identity: "r<n>" as issued by the node, or any other text. */
  datatype RowId = R(n: nat) | Named(text: string)

  /** One cell write of a transaction: the value the writer expects and the new one. */
  datatype CellOp = CellOp(ref: CellRef, oldValue: Value, newValue: Value)

  /** A structural operation on the rows of one frame. */
  datatype Edit =
    | InsertRows(frame: string, count: int, at: Option<int>, default: Value, asked: seq<RowId>)
    | DeleteRows(frame: string, rows: seq<int>, ids: seq<RowId>)

  datatype Node = Node(
    cols: map<Column, seq<Value>>,
    len: nat,
    frameRows: map<string, nat>,
    rowIds: map<string, seq<RowId>>,
    rowSeq: map<string, nat>,
    version: nat)

  /** A node after an operation, and whether the operation was accepted. */
  datatype Progress = Progress(node: Node, ok: bool)

  const EMPTY := Node(map[], 0, map[], map[], map[], 0)

  /** Every column has the shared length, and no frame has more rows than that. */
  ghost predicate Shaped(n: Node) {
    && (forall c :: c in n.cols ==> |n.cols[c]| == n.len)
    && (forall f :: f in n.frameRows ==> n.frameRows[f] <= n.len)
  }

  function Repeat(v: Value, k: nat): (s: seq<Value>)
    ensures |s| == k && forall i :: 0 <= i < k ==> s[i] == v
  {
    seq(k, _ => v)
  }

  /** `reindex(range(k))`: cut or padded with nulls to k rows. */
  function Fit(s: seq<Value>, k: nat): (r: seq<Value>)
    ensures |r| == k
    ensures forall i :: 0 <= i < k ==> r[i] == if i < |s| then s[i] else Null
  {
    if |s| >= k then s[..k] else s + Repeat(Null, k - |s|)
  }

  /** `get`: null for a missing column or row. */
  function Read(n: Node, c: Column, r: nat): Value {
    if c in n.cols && r < |n.cols[c]| then n.cols[c][r] else Null
  }

  // ------------------------------------------------------------- growing the table

  /** `_ensure_row(k - 1)`. */
  function Grow(n: Node, k: nat): Node {
    if n.len >= k then n else n.(len := k, cols := map c | c in n.cols :: Fit(n.cols[c], k))
  }

  function WithColumn(n: Node, c: Column): Node {
    if c in n.cols then n else n.(cols := n.cols[c := Repeat(Null, n.len)])
  }

  lemma GrowKeeps(n: Node, k: nat)
    requires Shaped(n)
    ensures Shaped(Grow(n, k)) && k <= Grow(n, k).len && n.len <= Grow(n, k).len
    ensures Grow(n, k).cols.Keys == n.cols.Keys
    ensures forall c, r: nat :: Read(Grow(n, k), c, r) == Read(n, c, r)
  {
  }

  lemma WithColumnKeeps(n: Node, c: Column)
    requires Shaped(n)
    ensures Shaped(WithColumn(n, c)) && c in WithColumn(n, c).cols
    ensures forall d, r: nat :: Read(WithColumn(n, c), d, r) == Read(n, d, r)
  {
  }

  // ------------------------------------------------------------- a frame's own rows

  predicate InFrame(c: Column, f: string) { c.Framed? && c.frame == f }

  function FrameCols(n: Node, f: string): set<Column> { set c | c in n.cols && InFrame(c, f) }

  /** Some column of the frame has a value in row k. */
  predicate Filled(n: Node, f: string, k: nat) {
    exists c :: c in n.cols && InFrame(c, f) && Read(n, c, k) != Null
  }

  function ExtentTo(n: Node, f: string, k: nat): (e: nat)
    ensures e <= k
  {
    if k == 0 then 0 else if Filled(n, f, k - 1) then k else ExtentTo(n, f, k - 1)
  }

  lemma {:induction false} ExtentIsLastFilled(n: Node, f: string, k: nat, r: nat)
    requires r < k
    ensures Filled(n, f, r) ==> r < ExtentTo(n, f, k)
    ensures ExtentTo(n, f, k) > 0 ==> Filled(n, f, ExtentTo(n, f, k) - 1)
  {
    if !Filled(n, f, k - 1) && r < k - 1 {
      ExtentIsLastFilled(n, f, k - 1, r);
    } else if !Filled(n, f, k - 1) && k > 1 {
      ExtentIsLastFilled(n, f, k - 1, 0);
    }
  }

  /** The recorded row count, or else `_extent_frame`. */
  function RowsOf(n: Node, f: string): nat {
    if f in n.frameRows then n.frameRows[f] else ExtentTo(n, f, n.len)
  }

  lemma RowsFit(n: Node, f: string)
    requires Shaped(n)
    ensures RowsOf(n, f) <= n.len
  {
  }

  /** `_catat_baris`: the record only grows. */
  function Record(n: Node, f: string, rows: int): Node {
    if f == "" || rows <= 0 then n
    else n.(frameRows := n.frameRows[f := Max(RowsOf(n, f), rows)])
  }

  /** Cells beyond a frame's row count are null. */
  ghost predicate TailNull(n: Node) {
    forall c, r: nat :: c in n.cols && c.Framed? && RowsOf(n, c.frame) <= r ==> Read(n, c, r) == Null
  }

  ghost predicate TailNullIn(n: Node, f: string) {
    forall c, r: nat :: c in n.cols && InFrame(c, f) && RowsOf(n, f) <= r ==> Read(n, c, r) == Null
  }

  lemma {:induction false} SameExtent(n: Node, m: Node, f: string, k: nat, l: nat)
    requires forall r: nat :: Filled(n, f, r) <==> Filled(m, f, r)
    requires forall r: nat :: r >= k ==> !Filled(n, f, r)
    requires forall r: nat :: r >= l ==> !Filled(m, f, r)
    ensures ExtentTo(n, f, k) == ExtentTo(m, f, l)
  {
    var a, b := ExtentTo(n, f, k), ExtentTo(m, f, l);
    if a > 0 {
      ExtentIsLastFilled(n, f, k, 0);
      ExtentIsLastFilled(m, f, l, a - 1);
    }
    if b > 0 {
      ExtentIsLastFilled(m, f, l, 0);
      ExtentIsLastFilled(n, f, k, b - 1);
    }
  }

  /** The row count of a frame depends on nothing but its record and its cells. */
  lemma SameRows(n: Node, m: Node, f: string)
    requires Shaped(n) && Shaped(m)
    requires f in n.frameRows <==> f in m.frameRows
    requires f in n.frameRows ==> n.frameRows[f] == m.frameRows[f]
    requires FrameCols(n, f) == FrameCols(m, f)
    requires forall c, r: nat :: InFrame(c, f) ==> Read(n, c, r) == Read(m, c, r)
    ensures RowsOf(n, f) == RowsOf(m, f)
  {
    if f !in n.frameRows {
      forall r: nat
        ensures Filled(n, f, r) <==> Filled(m, f, r)
      {
        if Filled(n, f, r) {
          var c :| c in n.cols && InFrame(c, f) && Read(n, c, r) != Null;
          assert c in FrameCols(n, f);
          assert c in m.cols && InFrame(c, f) && Read(m, c, r) != Null;
        }
        if Filled(m, f, r) {
          var c :| c in m.cols && InFrame(c, f) && Read(m, c, r) != Null;
          assert c in FrameCols(m, f);
          assert c in n.cols && InFrame(c, f) && Read(n, c, r) != Null;
        }
      }
      SameExtent(n, m, f, n.len, m.len);
    }
  }
}
