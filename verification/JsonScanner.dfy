/**
 * The bracket scanner of agent/prompt.py.
 *
 * `Piece` is a grammar for text whose brackets match outside string literals; it
 * knows nothing of the scanner's stack and flags.  The scanner is proved to find
 * exactly the first end of such a text, and hence the end of every JSON object and
 * array of RFC 8259.
 */
module JsonScanner {
  import opened Wrappers

  predicate IsOpener(c: char) { c == '[' || c == '{' }

  predicate IsCloser(c: char) { c == ']' || c == '}' }

  function Closer(opener: char): char { if opener == '{' then '}' else ']' }

  // ---------------------------------------------------------------- scanner state

  /** The scanner's loop variables. */
  datatype Scan = Scan(stack: seq<char>, inString: bool, escaped: bool)

  /** What one character leads to: carry on, the outermost bracket closed, or give up. */
  datatype Verdict = Go(s: Scan) | Closed | Rejected

  const START := Scan([], false, false)

  function Step(s: Scan, ch: char): Verdict {
    if s.inString then
      if s.escaped then Go(s.(escaped := false))
      else if ch == '\\' then Go(s.(escaped := true))
      else if ch == '"' then Go(s.(inString := false))
      else Go(s)
    else if ch == '"' then Go(s.(inString := true))
    else if IsOpener(ch) then Go(s.(stack := s.stack + [ch]))
    else if IsCloser(ch) then
      if s.stack == [] then Rejected
      else if Closer(s.stack[|s.stack| - 1]) != ch then Rejected
      else if |s.stack| == 1 then Closed
      else Go(s.(stack := s.stack[..|s.stack| - 1]))
    else Go(s)
  }

  /** The verdict after all of `text`; nothing may follow the closing bracket. */
  function After(s: Scan, text: string): Verdict
    decreases |text|
  {
    if text == [] then Go(s)
    else
      match After(s, text[..|text| - 1])
      case Go(s') => Step(s', text[|text| - 1])
      case Closed => Rejected
      case Rejected => Rejected
  }

  lemma {:induction false} AfterConcat(s: Scan, a: string, b: string)
    ensures After(s, a + b) == match After(s, a)
                               case Go(s') => After(s', b)
                               case Closed => if b == [] then Closed else Rejected
                               case Rejected => Rejected
    decreases |b|
  {
    if b == [] {
      assert a + b == a;
    } else {
      var n := |b| - 1;
      AfterConcat(s, a, b[..n]);
      assert (a + b)[..|a + b| - 1] == a + b[..n];
    }
  }

  // ------------------------------------------------------------------- the grammar

  /** One character of a string literal: itself, or a backslash and any character. */
  datatype QChar = Plain(c: char) | Escape(c: char)

  /** Text with matching brackets: other characters, string literals and groups. */
  datatype Piece = Other(c: char) | Quoted(body: seq<QChar>) | Group(opener: char, inner: seq<Piece>)

  ghost predicate QWell(q: seq<QChar>) {
    forall i :: 0 <= i < |q| && q[i].Plain? ==> q[i].c != '"' && q[i].c != '\\'
  }

  ghost predicate PieceWell(p: Piece)
    decreases p, 1
  {
    match p
    case Other(c) => !IsOpener(c) && !IsCloser(c) && c != '"'
    case Quoted(body) => QWell(body)
    case Group(opener, inner) => IsOpener(opener) && Well(inner)
  }

  ghost predicate Well(ps: seq<Piece>)
    decreases ps, 0
  {
    ps == [] || (PieceWell(ps[0]) && Well(ps[1..]))
  }

  function QCharText(c: QChar): string { if c.Plain? then [c.c] else ['\\', c.c] }

  function QText(q: seq<QChar>): string { if q == [] then [] else QCharText(q[0]) + QText(q[1..]) }

  function PieceText(p: Piece): string
    decreases p, 1
  {
    match p
    case Other(c) => [c]
    case Quoted(body) => "\"" + QText(body) + "\""
    case Group(opener, inner) => [opener] + Text(inner) + [Closer(opener)]
  }

  function Text(ps: seq<Piece>): string
    decreases ps, 0
  {
    if ps == [] then [] else PieceText(ps[0]) + Text(ps[1..])
  }

  /** `text` is matched outside string literals. */
  ghost predicate Matched(text: string) {
    exists ps :: Well(ps) && Text(ps) == text
  }

  lemma Associate(a: string, b: string, c: string)
    ensures (a + b) + c == a + (b + c)
  {
  }

  lemma {:induction false} QTextConcat(a: seq<QChar>, b: seq<QChar>)
    ensures QText(a + b) == QText(a) + QText(b)
  {
    if a == [] {
      assert a + b == b;
    } else {
      var head, all := QCharText(a[0]), a + b;
      QTextConcat(a[1..], b);
      assert all[0] == a[0] && all[1..] == a[1..] + b;
      Associate(head, QText(a[1..]), QText(b));
    }
  }

  lemma QTextSnoc(q: seq<QChar>, c: QChar)
    ensures QText(q + [c]) == QText(q) + QCharText(c)
  {
    QTextConcat(q, [c]);
    assert [c][1..] == [];
  }

  lemma {:induction false} TextSnoc(ps: seq<Piece>, p: Piece)
    ensures Text(ps + [p]) == Text(ps) + PieceText(p)
    ensures Well(ps) && PieceWell(p) ==> Well(ps + [p])
  {
    if ps == [] {
      assert ps + [p] == [p];
      assert Text([p]) == PieceText(p) + Text([]);
    } else {
      TextSnoc(ps[1..], p);
      assert (ps + [p])[1..] == ps[1..] + [p];
    }
  }

  lemma OnePiece(p: Piece)
    requires PieceWell(p)
    ensures Well([p]) && Text([p]) == PieceText(p) && Matched(PieceText(p))
  {
    TextSnoc([], p);
    assert [] + [p] == [p];
  }

  // ------------------------------------------- grammar to scanner: text is skipped

  lemma {:induction false} QuotedIsSkipped(s: Scan, q: seq<QChar>)
    requires s.inString && !s.escaped && QWell(q)
    ensures After(s, QText(q)) == Go(s)
  {
    if q != [] {
      AfterConcat(s, QCharText(q[0]), QText(q[1..]));
      QuotedIsSkipped(s, q[1..]);
      AfterOne(s, q[0].c);
      if q[0].Escape? {
        AfterOne(s, '\\');
        AfterConcat(s, ['\\'], [q[0].c]);
        AfterOne(s.(escaped := true), q[0].c);
        assert ['\\'] + [q[0].c] == QCharText(q[0]);
      }
    }
  }

  lemma AfterOne(s: Scan, c: char)
    ensures After(s, [c]) == Step(s, c)
  {
    assert [c][..0] == [];
  }

  /** Inside an open bracket a matched text leaves the scanner where it was. */
  lemma {:induction false} TextIsSkipped(s: Scan, ps: seq<Piece>)
    requires !s.inString && !s.escaped && |s.stack| > 0 && Well(ps)
    ensures After(s, Text(ps)) == Go(s)
    decreases ps, 0
  {
    if ps != [] {
      AfterConcat(s, PieceText(ps[0]), Text(ps[1..]));
      PieceIsSkipped(s, ps[0]);
      TextIsSkipped(s, ps[1..]);
    }
  }

  lemma {:induction false} PieceIsSkipped(s: Scan, p: Piece)
    requires !s.inString && !s.escaped && |s.stack| > 0 && PieceWell(p)
    ensures After(s, PieceText(p)) == Go(s)
    decreases p, 1
  {
    match p
    case Other(c) => AfterOne(s, c);
    case Quoted(body) =>
      var s' := s.(inString := true);
      AfterOne(s, '"');
      AfterConcat(s, "\"", QText(body));
      QuotedIsSkipped(s', body);
      AfterConcat(s, "\"" + QText(body), "\"");
      AfterOne(s', '"');
    case Group(opener, inner) =>
      var s' := s.(stack := s.stack + [opener]);
      GroupOpens(s, opener, inner);
      AfterConcat(s, [opener] + Text(inner), [Closer(opener)]);
      AfterOne(s', Closer(opener));
      assert s'.stack[..|s'.stack| - 1] == s.stack;
  }

  lemma GroupOpens(s: Scan, opener: char, inner: seq<Piece>)
    requires !s.inString && !s.escaped && IsOpener(opener) && Well(inner)
    ensures After(s, [opener] + Text(inner)) == Go(s.(stack := s.stack + [opener]))
    decreases inner, 1
  {
    AfterOne(s, opener);
    AfterConcat(s, [opener], Text(inner));
    TextIsSkipped(s.(stack := s.stack + [opener]), inner);
  }

  /** A group read from the start closes exactly at its own end. */
  lemma GroupCloses(opener: char, inner: seq<Piece>)
    requires IsOpener(opener) && Well(inner)
    ensures After(START, PieceText(Group(opener, inner))) == Closed
  {
    GroupOpens(START, opener, inner);
    AfterConcat(START, [opener] + Text(inner), [Closer(opener)]);
    AfterOne(START.(stack := [opener]), Closer(opener));
  }

  // ------------------------------------------- scanner to grammar: reconstruction

  /** The text read so far, cut at the brackets that are still open. */
  ghost function Layers(stack: seq<char>, fs: seq<seq<Piece>>): string
    requires |fs| == |stack| + 1
    decreases |stack|
  {
    var n := |stack|;
    if n == 0 then Text(fs[0])
    else Layers(stack[..n - 1], fs[..n]) + [stack[n - 1]] + Text(fs[n])
  }

  ghost predicate Explains(text: string, s: Scan, fs: seq<seq<Piece>>, q: seq<QChar>) {
    && |fs| == |s.stack| + 1
    && (forall i :: 0 <= i < |fs| ==> Well(fs[i]))
    && (forall i :: 0 <= i < |s.stack| ==> IsOpener(s.stack[i]))
    && QWell(q)
    && (s.escaped ==> s.inString)
    && text == Layers(s.stack, fs) +
               (if s.inString then "\"" + QText(q) + (if s.escaped then "\\" else []) else [])
  }

  lemma LayersGrow(stack: seq<char>, fs: seq<seq<Piece>>, p: Piece)
    requires |fs| == |stack| + 1 && Well(fs[|stack|]) && PieceWell(p)
    ensures var fs' := fs[|stack| := fs[|stack|] + [p]];
            Well(fs'[|stack|]) && Layers(stack, fs') == Layers(stack, fs) + PieceText(p)
  {
    var n := |stack|;
    TextSnoc(fs[n], p);
    assert fs[n := fs[n] + [p]][..n] == fs[..n];
  }

  lemma LayersPush(stack: seq<char>, fs: seq<seq<Piece>>, opener: char)
    requires |fs| == |stack| + 1
    ensures Layers(stack + [opener], fs + [[]]) == Layers(stack, fs) + [opener]
  {
    var n := |stack|;
    assert (fs + [[]])[..n + 1] == fs && (stack + [opener])[..n] == stack;
  }

  lemma LayersPop(stack: seq<char>, fs: seq<seq<Piece>>)
    requires |fs| == |stack| + 1 && |stack| > 0 && IsOpener(stack[|stack| - 1])
    requires Well(fs[|stack| - 1]) && Well(fs[|stack|])
    ensures var k := |stack|;
            var p := Group(stack[k - 1], fs[k]);
            var fs' := fs[..k][k - 1 := fs[k - 1] + [p]];
            && Well(fs'[k - 1])
            && Layers(stack[..k - 1], fs') == Layers(stack, fs) + [Closer(stack[k - 1])]
  {
    var k := |stack|;
    var p := Group(stack[k - 1], fs[k]);
    LayersGrow(stack[..k - 1], fs[..k], p);
    assert Layers(stack, fs) == Layers(stack[..k - 1], fs[..k]) + [stack[k - 1]] + Text(fs[k]);
    assert PieceText(p) == [stack[k - 1]] + Text(fs[k]) + [Closer(stack[k - 1])];
  }

  /** One character read inside a string literal. */
  lemma ExplainInString(init: string, ch: char, s: Scan, fs: seq<seq<Piece>>, q: seq<QChar>)
      returns (fs': seq<seq<Piece>>, q': seq<QChar>)
    requires Explains(init, s, fs, q) && s.inString
    ensures Explains(init + [ch], Step(s, ch).s, fs', q')
  {
    fs', q' := fs, q;
    var k := |s.stack|;
    if s.escaped {
      q' := q + [Escape(ch)];
      QTextSnoc(q, Escape(ch));
    } else if ch == '"' {
      LayersGrow(s.stack, fs, Quoted(q));
      fs' := fs[k := fs[k] + [Quoted(q)]];
    } else if ch != '\\' {
      q' := q + [Plain(ch)];
      QTextSnoc(q, Plain(ch));
    }
  }

  lemma ExplainOpener(init: string, ch: char, s: Scan, fs: seq<seq<Piece>>, q: seq<QChar>)
    requires Explains(init, s, fs, q) && !s.inString && IsOpener(ch)
    ensures Explains(init + [ch], Step(s, ch).s, fs + [[]], [])
  {
    LayersPush(s.stack, fs, ch);
  }

  lemma ExplainCloser(init: string, ch: char, s: Scan, fs: seq<seq<Piece>>, q: seq<QChar>)
      returns (fs': seq<seq<Piece>>)
    requires Explains(init, s, fs, q) && !s.inString && IsCloser(ch) && Step(s, ch).Go?
    ensures Explains(init + [ch], Step(s, ch).s, fs', [])
  {
    var k := |s.stack|;
    LayersPop(s.stack, fs);
    fs' := fs[..k][k - 1 := fs[k - 1] + [Group(s.stack[k - 1], fs[k])]];
  }

  lemma ExplainOther(init: string, ch: char, s: Scan, fs: seq<seq<Piece>>, q: seq<QChar>)
      returns (fs': seq<seq<Piece>>)
    requires Explains(init, s, fs, q) && !s.inString && !IsCloser(ch) && !IsOpener(ch) && ch != '"'
    ensures Explains(init + [ch], Step(s, ch).s, fs', [])
  {
    var k := |s.stack|;
    LayersGrow(s.stack, fs, Other(ch));
    fs' := fs[k := fs[k] + [Other(ch)]];
  }

  lemma ExplainQuote(init: string, s: Scan, fs: seq<seq<Piece>>, q: seq<QChar>)
    requires Explains(init, s, fs, q) && !s.inString
    ensures Explains(init + ['"'], Step(s, '"').s, fs, [])
  {
  }

  /** One character read outside string literals. */
  lemma ExplainOutside(init: string, ch: char, s: Scan, fs: seq<seq<Piece>>, q: seq<QChar>)
      returns (fs': seq<seq<Piece>>)
    requires Explains(init, s, fs, q) && !s.inString && Step(s, ch).Go?
    ensures Explains(init + [ch], Step(s, ch).s, fs', [])
  {
    hide Explains;
    if ch == '"' {
      fs' := fs;
      ExplainQuote(init, s, fs, q);
    } else if IsOpener(ch) {
      fs' := fs + [[]];
      ExplainOpener(init, ch, s, fs, q);
    } else if IsCloser(ch) {
      fs' := ExplainCloser(init, ch, s, fs, q);
    } else {
      fs' := ExplainOther(init, ch, s, fs, q);
    }
  }

  /** Every text the scanner is still running on has its open layers matched. */
  lemma {:induction false} Reconstruct(text: string) returns (fs: seq<seq<Piece>>, q: seq<QChar>)
    requires After(START, text).Go?
    ensures Explains(text, After(START, text).s, fs, q)
    decreases |text|
  {
    if text == [] {
      fs, q := [[]], [];
    } else {
      var m := |text| - 1;
      assert text == text[..m] + [text[m]];
      fs, q := Reconstruct(text[..m]);
      var s := After(START, text[..m]).s;
      if s.inString {
        fs, q := ExplainInString(text[..m], text[m], s, fs, q);
      } else {
        fs := ExplainOutside(text[..m], text[m], s, fs, q);
        q := [];
      }
    }
  }

  /** A matched text that starts with a bracket already closes at its first piece. */
  lemma FirstPieceCloses(ps: seq<Piece>)
    requires Well(ps) && |Text(ps)| > 0 && IsOpener(Text(ps)[0])
    ensures ps[0].Group? && After(START, PieceText(ps[0])) == Closed
    ensures 0 < |PieceText(ps[0])| <= |Text(ps)| && PieceText(ps[0]) <= Text(ps)
  {
    var p := ps[0];
    assert Text(ps)[0] == PieceText(p)[0];
    if p.Group? {
      GroupCloses(p.opener, p.inner);
    }
  }

  /** Nothing can follow a matched text that starts with a bracket. */
  lemma MatchedThenMore(ps: seq<Piece>, rest: string)
    requires Well(ps) && |Text(ps)| > 0 && IsOpener(Text(ps)[0]) && rest != []
    ensures After(START, Text(ps) + rest) == Rejected
  {
    FirstPieceCloses(ps);
    var head, tail := PieceText(ps[0]), Text(ps[1..]);
    assert Text(ps) == head + tail;
    Associate(head, tail, rest);
    AfterConcat(START, head, tail + rest);
    assert tail + rest != [];
  }

  /** Just before it closes, the text is one open bracket between two matched texts. */
  lemma BeforeTheClose(text: string) returns (left: seq<Piece>, opener: char, right: seq<Piece>)
    requires |text| > 0 && After(START, text) == Closed
    ensures IsOpener(opener) && Well(left) && Well(right)
    ensures text == Text(left) + ([opener] + Text(right) + [Closer(opener)])
  {
    var m := |text| - 1;
    assert text == text[..m] + [text[m]];
    var fs, q := Reconstruct(text[..m]);
    var s := After(START, text[..m]).s;
    assert After(START, text) == Step(s, text[m]);
    left, opener, right := fs[0], s.stack[0], fs[1];
    OneLayer(s.stack, fs);
    Associate(Text(left), [opener] + Text(right), [Closer(opener)]);
  }

  lemma OneLayer(stack: seq<char>, fs: seq<seq<Piece>>)
    requires |stack| == 1 && |fs| == 2
    ensures Layers(stack, fs) == Text(fs[0]) + ([stack[0]] + Text(fs[1]))
  {
    var below := fs[..1];
    assert stack[..0] == [] && below[0] == fs[0];
    assert Layers([], below) == Text(fs[0]);
    Associate(Text(fs[0]), [stack[0]], Text(fs[1]));
  }

  /** A text that closes is one group: bracket-matched, and nothing before or after it. */
  lemma ClosedIsGroup(text: string) returns (inner: seq<Piece>)
    requires |text| > 0 && IsOpener(text[0]) && After(START, text) == Closed
    ensures Well(inner) && text == PieceText(Group(text[0], inner))
  {
    var left, opener, right := BeforeTheClose(text);
    if |Text(left)| > 0 {
      assert Text(left)[0] == text[0];
      MatchedThenMore(left, [opener] + Text(right) + [Closer(opener)]);
      assert false;
    }
    inner := right;
  }

  lemma ClosedHasNoEarlierMatch(text: string, m: nat)
    requires |text| > 0 && IsOpener(text[0]) && After(START, text) == Closed
    requires 0 < m < |text|
    ensures !Matched(text[..m])
  {
    if Matched(text[..m]) {
      var ps :| Well(ps) && Text(ps) == text[..m];
      assert text == text[..m] + text[m..];
      MatchedThenMore(ps, text[m..]);
      assert false;
    }
  }

  lemma FirstMatchCloses(text: string)
    requires |text| > 0 && IsOpener(text[0]) && Matched(text)
    requires forall m :: 0 < m < |text| ==> !Matched(text[..m])
    ensures After(START, text) == Closed
  {
    var ps :| Well(ps) && Text(ps) == text;
    FirstPieceCloses(ps);
    OnePiece(ps[0]);
    var n := |PieceText(ps[0])|;
    assert text[..n] == PieceText(ps[0]);
    assert text[..|text|] == text;
  }

  /**
   * The scanner's verdict, said without the scanner: it closes on `text` if and only
   * if `text` is matched and no shorter non-empty prefix of it is.
   */
  lemma ClosesIffFirstMatch(text: string)
    requires |text| > 0 && IsOpener(text[0])
    ensures After(START, text) == Closed <==>
            Matched(text) && forall m :: 0 < m < |text| ==> !Matched(text[..m])
  {
    if After(START, text) == Closed {
      var inner := ClosedIsGroup(text);
      OnePiece(Group(text[0], inner));
      forall m | 0 < m < |text|
        ensures !Matched(text[..m])
      {
        ClosedHasNoEarlierMatch(text, m);
      }
    } else if Matched(text) && forall m :: 0 < m < |text| ==> !Matched(text[..m]) {
      FirstMatchCloses(text);
      assert false;
    }
  }

  // ------------------------------------------------------------------- the scanner

  /** The slice source[start..end] is matched and is the shortest such slice. */
  ghost predicate FirstMatchEnd(source: string, start: nat, end: int) {
    && start < end <= |source|
    && Matched(source[start..end])
    && forall e :: start < e < end ==> !Matched(source[start..e])
  }

  /** Scans from `start` and returns the end of the first balanced slice, if any. */
  method ExtractBalanced(source: string, start: nat) returns (end: Option<nat>)
    requires start < |source|
    ensures !IsOpener(source[start]) ==> end == None
    ensures IsOpener(source[start]) ==>
              forall e: nat :: end == Some(e) <==> FirstMatchEnd(source, start, e)
  {
    hide After, FirstMatchEnd, StillOpen;
    if !IsOpener(source[start]) {
      return None;
    }
    var stack: seq<char> := [];
    var inString, escaped := false, false;
    var idx := start;
    AfterNothing(source, start);
    while idx < |source|
      invariant start <= idx <= |source|
      invariant After(START, source[start..idx]) == Go(Scan(stack, inString, escaped))
      invariant StillOpen(source, start, idx)
    {
      var ch := source[idx];
      AfterNext(source, start, idx, Scan(stack, inString, escaped));
      idx := idx + 1;
      if inString {
        if escaped {
          escaped := false;
        } else if ch == '\\' {
          escaped := true;
        } else if ch == '"' {
          inString := false;
        }
      } else if ch == '"' {
        inString := true;
      } else if IsOpener(ch) {
        stack := stack + [ch];
      } else if IsCloser(ch) {
        if stack == [] {
          NoMatchAfter(source, start, idx);
          return None;
        }
        var opener := stack[|stack| - 1];
        stack := stack[..|stack| - 1];
        if Closer(opener) != ch {
          NoMatchAfter(source, start, idx);
          return None;
        }
        if stack == [] {
          ClosedAt(source, start, idx);
          return Some(idx);
        }
      }
    }
    NoMatchAtAll(source, start);
    return None;
  }

  lemma AfterNothing(source: string, start: nat)
    requires start <= |source|
    ensures After(START, source[start..start]) == Go(START) && StillOpen(source, start, start)
  {
  }

  lemma AfterNext(source: string, start: nat, idx: nat, s: Scan)
    requires start <= idx < |source| && After(START, source[start..idx]) == Go(s)
    requires StillOpen(source, start, idx)
    ensures After(START, source[start..idx + 1]) == Step(s, source[idx])
    ensures Step(s, source[idx]).Go? ==> StillOpen(source, start, idx + 1)
  {
    assert source[start..idx + 1][..idx - start] == source[start..idx];
  }

  /** The scanner is still running at every end up to `idx`. */
  ghost predicate StillOpen(source: string, start: nat, idx: nat)
    requires start <= idx <= |source|
  {
    forall e :: start < e <= idx ==> After(START, source[start..e]).Go?
  }

  lemma NoMatchAtAll(source: string, start: nat)
    requires start < |source| && IsOpener(source[start])
    requires StillOpen(source, start, |source|)
    ensures forall e: nat :: !FirstMatchEnd(source, start, e)
  {
    forall e | start < e <= |source|
      ensures !FirstMatchEnd(source, start, e)
    {
      EndCloses(source, start, e);
    }
  }

  /** FirstMatchEnd is the scanner closing at `e`. */
  lemma EndCloses(source: string, start: nat, e: int)
    requires start < e <= |source| && IsOpener(source[start])
    ensures FirstMatchEnd(source, start, e) <==> After(START, source[start..e]) == Closed
  {
    var text := source[start..e];
    ClosesIffFirstMatch(text);
    forall m | 0 < m < |text|
      ensures text[..m] == source[start..start + m]
    {
    }
    if FirstMatchEnd(source, start, e) {
      forall m | 0 < m < |text|
        ensures !Matched(text[..m])
      {
        assert text[..m] == source[start..start + m];
      }
    }
    if After(START, text) == Closed {
      forall k | start < k < e
        ensures !Matched(source[start..k])
      {
        assert text[..k - start] == source[start..k];
      }
    }
  }

  lemma ClosedAt(source: string, start: nat, end: nat)
    requires start < end <= |source| && IsOpener(source[start])
    requires After(START, source[start..end]) == Closed
    ensures forall e: nat :: e == end <==> FirstMatchEnd(source, start, e)
  {
    EndCloses(source, start, end);
    forall e: nat | FirstMatchEnd(source, start, e)
      ensures e == end
    {
    }
  }

  lemma NoMatchAfter(source: string, start: nat, end: nat)
    requires start < end <= |source| && IsOpener(source[start])
    requires After(START, source[start..end]) == Rejected
    requires StillOpen(source, start, end - 1)
    ensures forall e: nat :: !FirstMatchEnd(source, start, e)
  {
    forall e: nat | FirstMatchEnd(source, start, e)
      ensures false
    {
      EndCloses(source, start, e);
      if e >= end {
        assert source[start..e] == source[start..end] + source[end..e];
        AfterConcat(START, source[start..end], source[end..e]);
      }
    }
  }

  // ------------------------------------------------- RFC 8259, sections 4, 5 and 7

  /** Section 7: an unescaped character, a two-character escape, or \uXXXX. */
  datatype StringChar = Raw(c: char) | Short(c: char) | Hex(a: char, b: char, c: char, d: char)

  /**
   * Values with their insignificant whitespace.  A `Scalar` is a number or one of
   * the literal names; only its freedom from quotes and brackets is used.
   */
  datatype Json =
    | Scalar(text: string)
    | Str(chars: seq<StringChar>)
    | Arr(gap: string, items: Items)
    | Obj(gap: string, members: Members)

  datatype Items = NoItem | Item(before: string, value: Json, after: string, rest: Items)

  datatype Members =
    | NoMember
    | Member(before: string, name: seq<StringChar>, left: string, right: string, value: Json,
             after: string, rest: Members)

  ghost predicate IsSpace(s: string) {
    forall i :: 0 <= i < |s| ==> s[i] in {' ', '\t', '\n', '\r'}
  }

  predicate IsHex(c: char) { '0' <= c <= '9' || 'a' <= c <= 'f' || 'A' <= c <= 'F' }

  ghost predicate CharWell(c: StringChar) {
    match c
    case Raw(x) => x as int >= 0x20 && x != '"' && x != '\\'
    case Short(x) => x in {'"', '\\', '/', 'b', 'f', 'n', 'r', 't'}
    case Hex(x, y, z, w) => IsHex(x) && IsHex(y) && IsHex(z) && IsHex(w)
  }

  ghost predicate CharsWell(cs: seq<StringChar>) { forall i :: 0 <= i < |cs| ==> CharWell(cs[i]) }

  ghost predicate ScalarWell(text: string) {
    forall i :: 0 <= i < |text| ==> text[i] != '"' && !IsOpener(text[i]) && !IsCloser(text[i])
  }

  ghost predicate JsonWell(v: Json) {
    match v
    case Scalar(text) => ScalarWell(text)
    case Str(chars) => CharsWell(chars)
    case Arr(gap, items) => IsSpace(gap) && ItemsWell(items)
    case Obj(gap, members) => IsSpace(gap) && MembersWell(members)
  }

  ghost predicate ItemsWell(items: Items) {
    items.Item? ==>
      && IsSpace(items.before) && IsSpace(items.after)
      && JsonWell(items.value) && ItemsWell(items.rest)
  }

  ghost predicate MembersWell(ms: Members) {
    ms.Member? ==>
      && IsSpace(ms.before) && IsSpace(ms.left) && IsSpace(ms.right) && IsSpace(ms.after)
      && CharsWell(ms.name) && JsonWell(ms.value) && MembersWell(ms.rest)
  }

  function CharText(c: StringChar): string {
    match c
    case Raw(x) => [x]
    case Short(x) => ['\\', x]
    case Hex(x, y, z, w) => ['\\', 'u', x, y, z, w]
  }

  function CharsText(cs: seq<StringChar>): string {
    if cs == [] then [] else CharText(cs[0]) + CharsText(cs[1..])
  }

  function JsonText(v: Json): string {
    match v
    case Scalar(text) => text
    case Str(chars) => "\"" + CharsText(chars) + "\""
    case Arr(gap, items) => "[" + (if items.NoItem? then gap else ItemsText(items)) + "]"
    case Obj(gap, members) => "{" + (if members.NoMember? then gap else MembersText(members)) + "}"
  }

  function ItemsText(items: Items): string {
    match items
    case NoItem => []
    case Item(before, value, after, rest) =>
      before + JsonText(value) + after + (if rest.NoItem? then [] else "," + ItemsText(rest))
  }

  function MembersText(ms: Members): string {
    match ms
    case NoMember => []
    case Member(before, name, left, right, value, after, rest) =>
      before + ("\"" + CharsText(name) + "\"") + left + ":" + right + JsonText(value) + after +
      (if rest.NoMember? then [] else "," + MembersText(rest))
  }

  // Every JSON text is matched in the sense of `Matched`.

  lemma MatchedConcat(a: string, b: string)
    requires Matched(a) && Matched(b)
    ensures Matched(a + b)
  {
    var ps :| Well(ps) && Text(ps) == a;
    var qs :| Well(qs) && Text(qs) == b;
    TextConcat(ps, qs);
  }

  lemma {:induction false} TextConcat(ps: seq<Piece>, qs: seq<Piece>)
    requires Well(ps) && Well(qs)
    ensures Well(ps + qs) && Text(ps + qs) == Text(ps) + Text(qs)
  {
    if ps == [] {
      assert ps + qs == qs;
    } else {
      var all := ps + qs;
      TextConcat(ps[1..], qs);
      assert all[0] == ps[0] && all[1..] == ps[1..] + qs;
      Associate(PieceText(ps[0]), Text(ps[1..]), Text(qs));
    }
  }

  lemma {:induction false} PlainIsMatched(text: string)
    requires ScalarWell(text)
    ensures Matched(text)
  {
    if text == [] {
      assert Well([]) && Text([]) == text;
    } else {
      PlainIsMatched(text[1..]);
      var p := Other(text[0]);
      OnePiece(p);
      MatchedConcat([text[0]], text[1..]);
      assert text == [text[0]] + text[1..];
    }
  }

  function QCharOf(c: StringChar): seq<QChar> {
    match c
    case Raw(x) => [Plain(x)]
    case Short(x) => [Escape(x)]
    case Hex(x, y, z, w) => [Escape('u'), Plain(x), Plain(y), Plain(z), Plain(w)]
  }

  function QCharsOf(cs: seq<StringChar>): seq<QChar> {
    if cs == [] then [] else QCharOf(cs[0]) + QCharsOf(cs[1..])
  }

  lemma {:induction false} StringIsQuoted(cs: seq<StringChar>)
    requires CharsWell(cs)
    ensures QWell(QCharsOf(cs)) && QText(QCharsOf(cs)) == CharsText(cs)
  {
    if cs != [] {
      StringIsQuoted(cs[1..]);
      CharIsQuoted(cs[0]);
      QTextConcat(QCharOf(cs[0]), QCharsOf(cs[1..]));
    }
  }

  lemma QTextCons(q: QChar, rest: seq<QChar>)
    ensures QText([q] + rest) == QCharText(q) + QText(rest)
  {
    var all := [q] + rest;
    assert all[0] == q && all[1..] == rest;
  }

  lemma CharIsQuoted(c: StringChar)
    requires CharWell(c)
    ensures QWell(QCharOf(c)) && QText(QCharOf(c)) == CharText(c)
  {
    match c
    case Raw(x) => QTextCons(Plain(x), []);
    case Short(x) => QTextCons(Escape(x), []);
    case Hex(x, y, z, w) =>
      QTextCons(Plain(w), []);
      QTextCons(Plain(z), [Plain(w)]);
      QTextCons(Plain(y), [Plain(z), Plain(w)]);
      QTextCons(Plain(x), [Plain(y), Plain(z), Plain(w)]);
      QTextCons(Escape('u'), [Plain(x), Plain(y), Plain(z), Plain(w)]);
  }

  lemma StringIsMatched(cs: seq<StringChar>)
    requires CharsWell(cs)
    ensures Matched("\"" + CharsText(cs) + "\"")
  {
    StringIsQuoted(cs);
    var p := Quoted(QCharsOf(cs));
    OnePiece(p);
  }

  lemma GroupIsMatched(opener: char, inner: string)
    requires IsOpener(opener) && Matched(inner)
    ensures Matched([opener] + inner + [Closer(opener)])
  {
    var ps :| Well(ps) && Text(ps) == inner;
    var p := Group(opener, ps);
    OnePiece(p);
  }

  lemma JsonIsMatched(v: Json)
    requires JsonWell(v)
    ensures Matched(JsonText(v))
  {
    match v
    case Scalar(text) => PlainIsMatched(text);
    case Str(chars) => StringIsMatched(chars);
    case Arr(gap, items) =>
      PlainIsMatched(gap);
      ItemsAreMatched(items);
      GroupIsMatched('[', if items.NoItem? then gap else ItemsText(items));
    case Obj(gap, members) =>
      PlainIsMatched(gap);
      MembersAreMatched(members);
      GroupIsMatched('{', if members.NoMember? then gap else MembersText(members));
  }

  lemma {:induction false} ItemsAreMatched(items: Items)
    requires ItemsWell(items)
    ensures Matched(ItemsText(items))
  {
    match items
    case NoItem => PlainIsMatched([]);
    case Item(before, value, after, rest) =>
      PlainIsMatched(before);
      PlainIsMatched(after);
      PlainIsMatched(",");
      PlainIsMatched([]);
      JsonIsMatched(value);
      ItemsAreMatched(rest);
      MatchedConcat(before, JsonText(value));
      MatchedConcat(before + JsonText(value), after);
      MatchedConcat(",", ItemsText(rest));
      MatchedConcat(before + JsonText(value) + after, if rest.NoItem? then [] else "," + ItemsText(rest));
  }

  lemma {:induction false} MembersAreMatched(ms: Members)
    requires MembersWell(ms)
    ensures Matched(MembersText(ms))
  {
    match ms
    case NoMember => PlainIsMatched([]);
    case Member(before, name, left, right, value, after, rest) =>
      PlainIsMatched(before);
      PlainIsMatched(left);
      PlainIsMatched(right);
      PlainIsMatched(after);
      PlainIsMatched(":");
      PlainIsMatched(",");
      PlainIsMatched([]);
      StringIsMatched(name);
      JsonIsMatched(value);
      MembersAreMatched(rest);
      var quoted := "\"" + CharsText(name) + "\"";
      MatchedConcat(before, quoted);
      MatchedConcat(before + quoted, left);
      MatchedConcat(before + quoted + left, ":");
      MatchedConcat(before + quoted + left + ":", right);
      MatchedConcat(before + quoted + left + ":" + right, JsonText(value));
      MatchedConcat(before + quoted + left + ":" + right + JsonText(value), after);
      MatchedConcat(",", MembersText(rest));
      MatchedConcat(before + quoted + left + ":" + right + JsonText(value) + after,
                    if rest.NoMember? then [] else "," + MembersText(rest));
  }

  /**
   * For every JSON object or array and any text around it, the end the scanner looks
   * for is exactly the end of the value.
   */
  lemma JsonEndIsFound(v: Json, before: string, after: string)
    requires JsonWell(v) && (v.Arr? || v.Obj?)
    ensures var source := before + JsonText(v) + after;
            && |before| < |source| && IsOpener(source[|before|])
            && FirstMatchEnd(source, |before|, |before| + |JsonText(v)|)
  {
    var text := JsonText(v);
    var source := before + text + after;
    var end := |before| + |text|;
    assert source[|before|] == text[0];
    assert source[|before|..end] == text;
    ContainerCloses(v);
    EndCloses(source, |before|, end);
  }

  lemma ContainerCloses(v: Json)
    requires JsonWell(v) && (v.Arr? || v.Obj?)
    ensures After(START, JsonText(v)) == Closed
  {
    var inner :=
      if v.Arr? then (if v.items.NoItem? then v.gap else ItemsText(v.items))
      else (if v.members.NoMember? then v.gap else MembersText(v.members));
    var opener := if v.Arr? then '[' else '{';
    PlainIsMatched(v.gap);
    if v.Arr? {
      ItemsAreMatched(v.items);
    } else {
      MembersAreMatched(v.members);
    }
    var ps :| Well(ps) && Text(ps) == inner;
    GroupCloses(opener, ps);
  }

  // ---------------------------------------------- the search for an embedded plan

  /** The balanced slice that starts at `i` is accepted by the JSON reader. */
  ghost predicate Candidate<T>(text: string, loads: string -> Option<T>, i: nat, e: nat, plan: T) {
    && i < |text| && IsOpener(text[i])
    && FirstMatchEnd(text, i, e)
    && loads(text[i..e]) == Some(plan)
  }

  ghost predicate NoCandidateAt<T(!new)>(text: string, loads: string -> Option<T>, i: nat) {
    forall e: nat, plan: T :: !Candidate(text, loads, i, e, plan)
  }

  /** Returns the first embedded object or array the JSON reader `loads` accepts. */
  method ParseEmbedded<T(!new)>(text: string, loads: string -> Option<T>) returns (plan: Option<T>)
    ensures plan == None ==> forall i: nat :: NoCandidateAt(text, loads, i)
    ensures plan.Some? ==>
              exists i: nat, e: nat ::
                Candidate(text, loads, i, e, plan.value) && forall j: nat :: j < i ==> NoCandidateAt(text, loads, j)
  {
    var idx := 0;
    while idx < |text|
      invariant 0 <= idx <= |text|
      invariant forall j: nat :: j < idx ==> NoCandidateAt(text, loads, j)
    {
      if IsOpener(text[idx]) {
        var end := ExtractBalanced(text, idx);
        if end.Some? {
          assert FirstMatchEnd(text, idx, end.value);
          var loaded := loads(text[idx..end.value]);
          if loaded.Some? {
            assert Candidate(text, loads, idx, end.value, loaded.value);
            return loaded;
          }
        }
      }
      idx := idx + 1;
    }
    return None;
  }

  /**
   * A JSON object or array after bracket-free prose is what the search returns,
   * whatever follows it, as soon as the reader accepts it.
   */
  lemma EmbeddedJsonIsTheFirstCandidate<T(!new)>(v: Json, before: string, after: string,
                                                 loads: string -> Option<T>, plan: T)
    requires JsonWell(v) && (v.Arr? || v.Obj?) && loads(JsonText(v)) == Some(plan)
    requires forall i :: 0 <= i < |before| ==> !IsOpener(before[i])
    ensures var source := before + JsonText(v) + after;
            && Candidate(source, loads, |before|, |before| + |JsonText(v)|, plan)
            && forall j: nat :: j < |before| ==> NoCandidateAt(source, loads, j)
  {
    var source := before + JsonText(v) + after;
    JsonEndIsFound(v, before, after);
    assert source[|before|..|before| + |JsonText(v)|] == JsonText(v);
    forall j: nat | j < |before|
      ensures source[j] == before[j]
    {
    }
  }
}
