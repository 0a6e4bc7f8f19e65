/** Helpers on sequences and bounds that several modules share. */
module Sequences {

  function Max(a: int, b: int): int { if a < b then b else a }

  function Min(a: int, b: int): int { if a < b then a else b }

  function Concat<T>(parts: seq<seq<T>>): seq<T> {
    if parts == [] then [] else parts[0] + Concat(parts[1..])
  }

  lemma {:induction false} ConcatAppend<T>(a: seq<seq<T>>, b: seq<seq<T>>)
    ensures Concat(a + b) == Concat(a) + Concat(b)
  {
    if a == [] {
      assert a + b == b;
    } else {
      assert (a + b)[1..] == a[1..] + b;
      ConcatAppend(a[1..], b);
    }
  }

  lemma ConcatSnoc<T>(parts: seq<seq<T>>, part: seq<T>)
    ensures Concat(parts + [part]) == Concat(parts) + part
    ensures part == [] ==> Concat(parts) + part == Concat(parts)
  {
    ConcatAppend(parts, [part]);
    assert [part][1..] == [] && part + [] == part;
  }

  /** The first i + 1 parts, and the parts from i on. */
  lemma ConcatAt<T>(parts: seq<seq<T>>, i: nat)
    requires i < |parts|
    ensures Concat(parts[..i + 1]) == Concat(parts[..i]) + parts[i]
    ensures Concat(parts[i..]) == parts[i] + Concat(parts[i + 1..])
    ensures Concat(parts) == Concat(parts[..i]) + Concat(parts[i..])
  {
    assert parts[..i + 1] == parts[..i] + [parts[i]];
    ConcatSnoc(parts[..i], parts[i]);
    assert parts[i..][1..] == parts[i + 1..];
    ConcatAppend(parts[..i], parts[i..]);
    assert parts == parts[..i] + parts[i..];
  }
}
