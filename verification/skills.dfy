/**
 The skill tokenizer of the "Technical Skills" card (`splitSkills` in
 src/App.jsx).

 The scanner keeps a parenthesis depth that is never clamped, splits the
 input only at commas met while that depth is 0, trims every piece and
 drops the pieces that are empty after trimming.

 Two views of the same behaviour are given here and proved equal:
 - `Segments` is the reference segmentation, a right fold that says where
   the cuts fall; `Tokens` cleans its pieces;
 - `SplitSkills` is the source's left-to-right loop with its running
   buffer, depth and result list.
 */
module Skills {
  import opened Text

  /* One character's effect on the parenthesis depth. */
  function Delta(d: int, c: char): int {
    if c == '(' then d + 1 else if c == ')' then d - 1 else d
  }

  /** The depth reached after scanning `s` from depth `d`. */
  function Depth(s: string, d: int): int
    decreases |s|
  {
    if s == [] then d else Depth(s[1..], Delta(d, s[0]))
  }

  /** Every comma of `t`, scanned from depth `d`, sits at a non-zero depth:
      `t` holds no top-level comma. */
  ghost predicate NoTopComma(t: string, d: int) {
    forall j | 0 <= j < |t| && t[j] == ',' :: Depth(t[..j], d) != 0
  }

  /** The raw pieces of `s` between the commas met at depth 0, scanning
      from depth `d`: one cut per such comma, so one piece more than there
      are of them. */
  function Segments(s: string, d: int): (r: seq<string>)
    ensures |r| == 1 + TopCommas(s, d)
    decreases |s|
  {
    if s == [] then [""]
    else
      var d' := Delta(d, s[0]);
      var rest := Segments(s[1..], d');
      if s[0] == ',' && d' == 0 then [""] + rest
      else [[s[0]] + rest[0]] + rest[1..]
  }

  /** The number of commas of `s` met at depth 0, scanning from `d`. */
  function TopCommas(s: string, d: int): nat
    decreases |s|
  {
    if s == [] then 0
    else (if s[0] == ',' && d == 0 then 1 else 0) + TopCommas(s[1..], Delta(d, s[0]))
  }

  /** The pieces joined back with the separator `,`. */
  function Join(xs: seq<string>): string
    requires |xs| >= 1
  {
    if |xs| == 1 then xs[0] else xs[0] + [','] + Join(xs[1..])
  }

  /** The segmentations of two adjacent strings put together: the last piece
      of the first continues into the first piece of the second. */
  function Glue(a: seq<string>, b: seq<string>): (r: seq<string>)
    requires |a| >= 1 && |b| >= 1
    ensures |r| == |a| + |b| - 1
  {
    a[..|a| - 1] + [a[|a| - 1] + b[0]] + b[1..]
  }

  /** Trims every piece and keeps the non-empty results, in order. */
  function Clean(pieces: seq<string>): (r: seq<string>)
    ensures |r| <= |pieces|
  {
    if pieces == [] then []
    else
      var t := Trim(pieces[0]);
      (if t != [] then [t] else []) + Clean(pieces[1..])
  }

  /** The tokens of one skill string: at most one more than there are
      top-level commas. */
  function Tokens(s: string): (r: seq<string>)
    ensures |r| <= 1 + TopCommas(s, 0)
  {
    Clean(Segments(s, 0))
  }

  /** `splitSkills(str)`: the character loop of the source, with its
      buffer `cur`, its unclamped `depth` and its result list. It returns
      the cleaned depth-0 segmentation, so every token is non-empty and
      already trimmed. */
  method SplitSkills(str: string) returns (res: seq<string>)
    ensures res == Tokens(str)
    ensures forall t | t in res :: t != [] && Trim(t) == t
  {
    res := [];
    var cur := "";
    var depth := 0;
    var i := 0;
    assert str[i..] == str;
    GlueEmptyLeft(Segments(str, 0));
    while i < |str|
      invariant 0 <= i <= |str|
      invariant res + Clean(Glue([cur], Segments(str[i..], depth))) == Tokens(str)
    {
      var ch := str[i];
      ghost var old_res := res;
      ghost var before := depth;
      ghost var tail := str[i + 1..];
      assert str[i..] == [ch] + tail;
      if ch == '(' { depth := depth + 1; }
      if ch == ')' { depth := depth - 1; }
      assert depth == Delta(before, ch);
      if ch == ',' && depth == 0 {
        ghost var emitting := cur;
        if Trim(cur) != [] { res := res + [Trim(cur)]; }
        ScanCut(old_res, emitting, tail, res, Tokens(str));
        cur := "";
      } else {
        ScanKeep(cur, ch, tail, before);
        cur := cur + [ch];
      }
      i := i + 1;
    }
    assert str[i..] == [];
    GlueSingle(cur, [""]);
    assert cur + "" == cur;
    CleanSingle(cur);
    if Trim(cur) != [] { res := res + [Trim(cur)]; }
    TokensAreClean(str);
  }

  /* A top-level comma emits the buffer's token and starts an empty
     buffer. */
  lemma ScanCut(res: seq<string>, cur: string, t: string, res': seq<string>, goal: seq<string>)
    requires res + Clean(Glue([cur], Segments([','] + t, 0))) == goal
    requires res' == if Trim(cur) != [] then res + [Trim(cur)] else res
    ensures res' + Clean(Glue([""], Segments(t, 0))) == goal
  {
    var later := Clean(Glue([""], Segments(t, 0)));
    var emitted := Clean([cur]);
    CutPieces(cur, t);
    CleanSingle(cur);
    assert res' == res + emitted by {
      if Trim(cur) == [] {
        assert emitted == [];
        assert res + emitted == res;
      }
    }
    Regroup(res, emitted, later, goal);
  }

  /* Sequence associativity in exactly the shape `ScanCut` needs; stated
     inline, the step runs the solver out of resource. */
  lemma Regroup(a: seq<string>, b: seq<string>, c: seq<string>, g: seq<string>)
    requires a + (b + c) == g
    ensures (a + b) + c == g
  {
  }

  lemma CutPieces(cur: string, t: string)
    ensures Clean(Glue([cur], Segments([','] + t, 0)))
      == Clean([cur]) + Clean(Glue([""], Segments(t, 0)))
  {
    var s := [','] + t;
    assert s[0] == ',' && s[1..] == t;
    var rest := Segments(t, 0);
    assert Segments(s, 0) == [""] + rest;
    GlueSingle(cur, [""] + rest);
    GlueEmptyLeft(rest);
    assert cur + "" == cur;
    assert Glue([cur], [""] + rest) == [cur] + rest;
    CleanAppend([cur], rest);
  }

  /* Any other character moves into the buffer. */
  lemma ScanKeep(cur: string, c: char, t: string, d: int)
    requires !(c == ',' && Delta(d, c) == 0)
    ensures Glue([cur], Segments([c] + t, d)) == Glue([cur + [c]], Segments(t, Delta(d, c)))
  {
    var s := [c] + t;
    assert s[0] == c && s[1..] == t;
    var rest := Segments(t, Delta(d, c));
    assert Segments(s, d) == [[c] + rest[0]] + rest[1..];
    GlueSingle(cur, Segments(s, d));
    GlueSingle(cur + [c], rest);
    assert cur + ([c] + rest[0]) == (cur + [c]) + rest[0];
  }

  // ---------------------------------------------------------------------
  // Facts about the pieces

  lemma CleanSingle(x: string)
    ensures Clean([x]) == if Trim(x) != [] then [Trim(x)] else []
  {
    assert [x][1..] == [];
  }

  lemma GlueEmptyLeft(b: seq<string>)
    requires |b| >= 1
    ensures Glue([""], b) == b
  {
    GlueSingle("", b);
    assert "" + b[0] == b[0];
    assert [b[0]] + b[1..] == b;
  }

  lemma GlueSingle(x: string, b: seq<string>)
    requires |b| >= 1
    ensures Glue([x], b) == [x + b[0]] + b[1..]
  {
    assert [x][..0] == [];
  }

  lemma {:induction false} CleanAppend(a: seq<string>, b: seq<string>)
    ensures Clean(a + b) == Clean(a) + Clean(b)
    decreases |a|
  {
    if a == [] {
      assert a + b == b;
    } else {
      assert (a + b)[0] == a[0] && (a + b)[1..] == a[1..] + b;
      CleanAppend(a[1..], b);
      var t := Trim(a[0]);
      var h := if t != [] then [t] else [];
      assert Clean(a + b) == h + Clean(a[1..] + b);
      assert Clean(a) == h + Clean(a[1..]);
      assert h + (Clean(a[1..]) + Clean(b)) == (h + Clean(a[1..])) + Clean(b);
    }
  }

  /** Every token comes from one piece, as that piece trimmed. */
  lemma {:induction false} CleanSource(pieces: seq<string>, t: string) returns (k: nat)
    requires t in Clean(pieces)
    ensures k < |pieces| && t == Trim(pieces[k]) && t != []
    decreases |pieces|
  {
    if Trim(pieces[0]) != [] && t == Trim(pieces[0]) {
      k := 0;
    } else {
      var k' := CleanSource(pieces[1..], t);
      k := k' + 1;
    }
  }

  lemma {:induction false} DepthAppend(p: string, q: string, d: int)
    ensures Depth(p + q, d) == Depth(q, Depth(p, d))
    decreases |p|
  {
    if p != [] {
      assert (p + q)[0] == p[0] && (p + q)[1..] == p[1..] + q;
      DepthAppend(p[1..], q, Delta(d, p[0]));
    } else {
      assert p + q == q;
    }
  }

  /** Whitespace never moves the depth. */
  lemma {:induction false} DepthOfSpaces(w: string, d: int)
    requires AllSpace(w)
    ensures Depth(w, d) == d
    decreases |w|
  {
    if w != [] {
      DepthOfSpaces(w[1..], d);
    }
  }

  lemma GlueConsChar(c: char, a: seq<string>, b: seq<string>)
    requires |a| >= 1 && |b| >= 1
    ensures Glue([[c] + a[0]] + a[1..], b) == [[c] + Glue(a, b)[0]] + Glue(a, b)[1..]
  {
    var a' := [[c] + a[0]] + a[1..];
    var g := Glue(a, b);
    if |a| == 1 {
      assert a' == [[c] + a[0]];
      assert g == [a[0] + b[0]] + b[1..];
      assert ([c] + a[0]) + b[0] == [c] + (a[0] + b[0]);
    } else {
      assert a'[..|a'| - 1] == [[c] + a[0]] + a[1..|a| - 1];
      assert a'[|a'| - 1] == a[|a| - 1];
      assert g[0] == a[0] && g[1..] == a[1..|a| - 1] + [a[|a| - 1] + b[0]] + b[1..];
    }
  }

  /** Segmenting a concatenation: the second part is segmented from the
      depth the first part ends at, and the two segmentations meet in one
      piece. */
  lemma {:induction false} SegmentsAppend(p: string, q: string, d: int)
    ensures Segments(p + q, d) == Glue(Segments(p, d), Segments(q, Depth(p, d)))
    decreases |p|
  {
    if p == [] {
      assert p + q == q;
      var b := Segments(q, d);
      assert [""][..0] == [] && "" + b[0] == b[0];
      assert Glue([""], b) == [b[0]] + b[1..] == b;
    } else {
      var c := p[0];
      var d' := Delta(d, c);
      assert (p + q)[0] == c && (p + q)[1..] == p[1..] + q;
      SegmentsAppend(p[1..], q, d');
      var a := Segments(p[1..], d');
      var b := Segments(q, Depth(p[1..], d'));
      if c == ',' && d' == 0 {
        assert Glue([""] + a, b) == [""] + Glue(a, b);
      } else {
        GlueConsChar(c, a, b);
      }
    }
  }

  lemma JoinConsChar(c: char, a: seq<string>)
    requires |a| >= 1
    ensures Join([[c] + a[0]] + a[1..]) == [c] + Join(a)
  {
    if |a| > 1 {
      JoinConsCharLonger(c, a);
    }
  }

  lemma JoinConsCharLonger(c: char, a: seq<string>)
    requires |a| > 1
    ensures Join([[c] + a[0]] + a[1..]) == [c] + Join(a)
  {
    var a' := [[c] + a[0]] + a[1..];
    assert a'[0] == [c] + a[0] && a'[1..] == a[1..];
    var rest := Join(a[1..]);
    assert Join(a') == ([c] + a[0]) + [','] + rest;
    assert Join(a) == a[0] + [','] + rest;
    ConsAssoc(c, a[0], rest);
  }

  /* Associativity in exactly the shape `JoinConsCharLonger` needs; stated
     inline, the step runs the solver out of resource. */
  lemma ConsAssoc(c: char, x: string, y: string)
    ensures ([c] + x) + [','] + y == [c] + (x + [','] + y)
  {
  }

  /** Nothing but the cut commas is lost: joining the raw pieces with `,`
      gives back the input. */
  lemma {:induction false} SegmentsJoin(s: string, d: int)
    ensures Join(Segments(s, d)) == s
    decreases |s|
  {
    if s != [] {
      var d' := Delta(d, s[0]);
      SegmentsJoin(s[1..], d');
      var rest := Segments(s[1..], d');
      if s[0] == ',' && d' == 0 {
        assert ([""] + rest)[1..] == rest;
        assert s == [','] + s[1..];
      } else {
        JoinConsChar(s[0], rest);
        assert s == [s[0]] + s[1..];
      }
    }
  }

  /** No piece keeps a top-level comma: the first piece is scanned from
      the starting depth, every later one from depth 0. */
  lemma {:induction false} SegmentsNoTopComma(s: string, d: int)
    ensures NoTopComma(Segments(s, d)[0], d)
    ensures forall k | 1 <= k < |Segments(s, d)| :: NoTopComma(Segments(s, d)[k], 0)
    decreases |s|
  {
    if s != [] {
      var c := s[0];
      var d' := Delta(d, c);
      SegmentsNoTopComma(s[1..], d');
      var rest := Segments(s[1..], d');
      if !(c == ',' && d' == 0) {
        var t := [c] + rest[0];
        forall j | 0 <= j < |t| && t[j] == ','
          ensures Depth(t[..j], d) != 0
        {
          if j > 0 {
            assert t[..j] == [c] + rest[0][..j - 1];
            assert rest[0][j - 1] == t[j];
            assert ([c] + rest[0][..j - 1])[1..] == rest[0][..j - 1];
          }
        }
      }
    }
  }

  // ---------------------------------------------------------------------
  // Properties of the tokens

  lemma {:induction false} CleanIsClean(pieces: seq<string>)
    ensures forall t | t in Clean(pieces) :: t != [] && Trim(t) == t
    decreases |pieces|
  {
    if pieces != [] {
      CleanIsClean(pieces[1..]);
      TrimIdempotent(pieces[0]);
    }
  }

  /** Tokens are clean: non-empty and equal to their own trim. */
  lemma TokensAreClean(s: string)
    ensures forall t | t in Tokens(s) :: t != [] && Trim(t) == t
  {
    CleanIsClean(Segments(s, 0));
  }

  /** Trimming keeps a piece free of top-level commas: the whitespace it
      removes in front does not move the depth. */
  lemma TrimNoTopComma(x: string)
    requires NoTopComma(x, 0)
    ensures NoTopComma(Trim(x), 0)
  {
    var t := Trim(x);
    var a, b := TrimBounds(x);
    forall j | 0 <= j < |t| && t[j] == ','
      ensures Depth(t[..j], 0) != 0
    {
      assert x[a + j] == ',';
      assert x[..a + j] == x[..a] + t[..j];
      DepthAppend(x[..a], t[..j], 0);
      DepthOfSpaces(x[..a], 0);
    }
  }

  /** No token contains a top-level comma. */
  lemma TokensNoTopComma(s: string)
    ensures forall t | t in Tokens(s) :: NoTopComma(t, 0)
  {
    var pieces := Segments(s, 0);
    SegmentsNoTopComma(s, 0);
    forall t | t in Tokens(s)
      ensures NoTopComma(t, 0)
    {
      var k := CleanSource(pieces, t);
      TrimNoTopComma(pieces[k]);
    }
  }

  lemma {:induction false} NoCommaOneSegment(s: string, d: int)
    requires forall i | 0 <= i < |s| :: s[i] != ','
    ensures Segments(s, d) == [s]
    decreases |s|
  {
    if s != [] {
      NoCommaOneSegment(s[1..], Delta(d, s[0]));
      assert s == [s[0]] + s[1..];
    }
  }

  /** Empty or whitespace-only input yields no token. */
  lemma {:induction false} BlankYieldsNothing(s: string)
    requires AllSpace(s)
    ensures Tokens(s) == []
  {
    NoCommaOneSegment(s, 0);
    TrimEmptyIff(s);
    CleanSingle(s);
  }

  /** A comma met at depth 0 is a cut: the text on either side is
      segmented on its own, the right side from depth 0. */
  lemma TopLevelCommaCuts(p: string, q: string, d: int)
    requires Depth(p, d) == 0
    ensures Segments(p + [','] + q, d) == Segments(p, d) + Segments(q, 0)
  {
    var tail := [','] + q;
    assert p + [','] + q == p + tail;
    SegmentsAppend(p, tail, d);
    assert tail[0] == ',' && tail[1..] == q;
    assert Segments(tail, 0) == [""] + Segments(q, 0);
    GlueCut(Segments(p, d), Segments(q, 0));
  }

  lemma GlueCut(a: seq<string>, b: seq<string>)
    requires |a| >= 1 && |b| >= 1
    ensures Glue(a, [""] + b) == a + b
  {
    var n := |a|;
    assert ([""] + b)[0] == "" && ([""] + b)[1..] == b;
    assert a[n - 1] + "" == a[n - 1];
    assert a[..n - 1] + [a[n - 1]] == a;
  }

  /** A comma met at any other depth is no cut: it stays inside the piece
      that joins the last piece on its left with the first on its right. */
  lemma NestedCommaStays(p: string, q: string, d: int)
    requires Depth(p, d) != 0
    ensures var sp, sq := Segments(p, d), Segments(q, Depth(p, d));
      Segments(p + [','] + q, d)
        == sp[..|sp| - 1] + [sp[|sp| - 1] + [','] + sq[0]] + sq[1..]
  {
    var D := Depth(p, d);
    var sp, sq := Segments(p, d), Segments(q, D);
    var n := |sp|;
    var tail := [','] + q;
    assert p + [','] + q == p + tail;
    SegmentsAppend(p, tail, d);
    assert tail[0] == ',' && tail[1..] == q;
    assert Segments(tail, D) == [[','] + sq[0]] + sq[1..];
    assert sp[n - 1] + ([','] + sq[0]) == sp[n - 1] + [','] + sq[0];
  }

  /** For the tokens: a top-level comma splits the input into two
      independently tokenized halves. */
  lemma TopCommaSplitsTokens(p: string, q: string)
    requires Depth(p, 0) == 0
    ensures Tokens(p + [','] + q) == Tokens(p) + Tokens(q)
  {
    TopLevelCommaCuts(p, q, 0);
    CleanAppend(Segments(p, 0), Segments(q, 0));
  }

  /** An unclosed `(` suppresses every later cut while no `)` follows. */
  lemma {:induction false} OpenParenSuppressesCuts(q: string, d: int)
    requires d > 0
    requires forall i | 0 <= i < |q| :: q[i] != ')'
    ensures Segments(q, d) == [q]
    decreases |q|
  {
    if q != [] {
      OpenParenSuppressesCuts(q[1..], Delta(d, q[0]));
      assert q == [q[0]] + q[1..];
    }
  }

  /** A stray `)` makes the depth negative; no later comma cuts while no
      `(` follows. */
  lemma {:induction false} StrayCloseSuppressesCuts(q: string, d: int)
    requires d < 0
    requires forall i | 0 <= i < |q| :: q[i] != '('
    ensures Segments(q, d) == [q]
    decreases |q|
  {
    if q != [] {
      StrayCloseSuppressesCuts(q[1..], Delta(d, q[0]));
      assert q == [q[0]] + q[1..];
    }
  }

  /** A string with no top-level comma is one piece. */
  lemma {:induction false} NoTopCommaOnePiece(q: string, d: int)
    requires NoTopComma(q, d)
    ensures Segments(q, d) == [q]
    decreases |q|
  {
    if q != [] {
      var d' := Delta(d, q[0]);
      if q[0] == ',' {
        assert Depth(q[..0], d) == d;
      }
      forall j | 0 <= j < |q[1..]| && q[1..][j] == ','
        ensures Depth(q[1..][..j], d') != 0
      {
        assert q[j + 1] == ',';
        assert q[..j + 1][0] == q[0] && q[..j + 1][1..] == q[1..][..j];
      }
      NoTopCommaOnePiece(q[1..], d');
      assert q == [q[0]] + q[1..];
    }
  }

  /** Once no later comma is met at depth 0, the whole rest of the input
      lands in the last piece, whatever the parentheses still open or
      stray. Unbalanced input is not an error. */
  lemma UnbalancedTailIsAbsorbed(p: string, q: string)
    requires NoTopComma(q, Depth(p, 0))
    ensures var sp := Segments(p, 0);
      Segments(p + q, 0) == sp[..|sp| - 1] + [sp[|sp| - 1] + q]
  {
    SegmentsAppend(p, q, 0);
    NoTopCommaOnePiece(q, Depth(p, 0));
  }
}
