/** Exactly which formats and right sides the printf rewriting takes. */
module RewrittenFormats {
  import opened Basics
  import opened Printf
  import opened PrintfRewrite

  /** Text, a `%%` with what may stand in between, and a conversion with its zeros and width. */
  datatype Piece = Plain(text: string) | Double(zeros: string, width: string)
                 | Take(zeros: string, width: string, conv: char)

  predicate NoPercent(t: string) {
    forall i :: 0 <= i < |t| ==> t[i] != '%'
  }

  predicate ZerosThenWidth(zeros: string, width: string) {
    && (forall i :: 0 <= i < |zeros| ==> zeros[i] == '0')
    && (forall i :: 0 <= i < |width| ==> '0' <= width[i] <= '9') && (width != "" ==> width[0] != '0')
  }

  predicate GoodPiece(x: Piece) {
    match x
    case Plain(t) => NoPercent(t)
    case Double(z, w) => ZerosThenWidth(z, w)
    case Take(z, w, c) => ZerosThenWidth(z, w) && c in "sradiuxXo"
  }

  function Render(x: Piece): string {
    match x
    case Plain(t) => t
    case Double(z, w) => "%" + z + w + "%"
    case Take(z, w, c) => "%" + z + w + [c]
  }

  function RenderAll(pieces: seq<Piece>): string {
    if pieces == [] then "" else Render(pieces[0]) + RenderAll(pieces[1..])
  }

  function Takes(pieces: seq<Piece>): nat {
    if pieces == [] then 0 else (if pieces[0].Take? then 1 else 0) + Takes(pieces[1..])
  }

  predicate GoodPieces(pieces: seq<Piece>) {
    forall i :: 0 <= i < |pieces| ==> GoodPiece(pieces[i])
  }

  /** `t` is made of good pieces with `n` conversions. */
  ghost predicate MadeOf(t: string, n: int, pieces: seq<Piece>) {
    GoodPieces(pieces) && t == RenderAll(pieces) && Takes(pieces) == n
  }

  // ----- the second scan -----

  /** `s` has at `p` zeros up to `q` and digits up to `r`, and no more. */
  lemma SkipsAt(s: string, p: nat, q: nat, r: nat)
    requires p <= q <= r <= |s|
    requires (forall i :: p <= i < q ==> s[i] == '0') && (forall i :: q <= i < r ==> IsDigit(s[i]))
    requires (q < r ==> s[q] != '0') && (r < |s| ==> !IsDigit(s[r]))
    ensures SkipZeros(s, p) == q && SkipDigits(s, q) == r
  {
    hide SkipZeros; hide SkipDigits;
    var z, d := SkipZeros(s, p), SkipDigits(s, q);
  }

  lemma PieceAt(s: string, i: nat, z: string, w: string, c: char, rest: string)
    requires i <= |s| && s[i..] == "%" + z + w + [c] + rest && ZerosThenWidth(z, w) && !IsDigit(c)
    ensures var r := i + 1 + |z| + |w|;
      && r < |s| && s[r] == c && s[r + 1..] == rest && FindPercent(s, i) == i
      && SkipZeros(s, i + 1) == i + 1 + |z| && SkipDigits(s, i + 1 + |z|) == r
  {
    var t := "%" + z + w + [c] + rest;
    var q, r := i + 1 + |z|, i + 1 + |z| + |w|;
    assert |t| == 2 + |z| + |w| + |rest| && |s| == i + |t|;
    forall j | 0 <= j < |t| ensures s[i + j] == t[j] { assert s[i..][j] == s[i + j]; }
    forall j | i + 1 <= j < q ensures s[j] == '0' { assert t[j - i] == z[j - i - 1]; }
    forall j | q <= j < r ensures IsDigit(s[j]) { assert t[j - i] == w[j - q]; }
    assert q < r ==> s[q] == w[0] by { if q < r { assert t[q - i] == w[0]; } }
    assert t[r - i] == c && t[r - i + 1..] == rest && t[0] == '%';
    assert s[r + 1..] == s[i..][r + 1 - i..];
    SkipsAt(s, i + 1, q, r);
  }

  lemma PlainAt(s: string, i: nat, t: string, rest: string)
    requires i <= |s| && s[i..] == t + rest && NoPercent(t)
    ensures i + |t| <= |s| && s[i + |t|..] == rest && FindPercent(s, i) == FindPercent(s, i + |t|)
  {
    var m := i + |t|;
    assert s[m..] == s[i..][|t|..] == rest;
    forall j | i <= j < m ensures s[j] != '%' { assert s[j] == s[i..][j - i] == t[j - i]; }
    hide FindPercent;
    var a, b := FindPercent(s, i), FindPercent(s, m);
  }

  lemma DoubleIsRewritten(s: string, begin: nat, i: nat, k: nat, n: nat, z: string, w: string, rest: string)
    requires begin <= i <= |s| && s[i..] == "%" + z + w + "%" + rest && ZerosThenWidth(z, w)
    ensures var r := i + 1 + |z| + |w|;
      && r < |s| && s[r + 1..] == rest
      && (RewriteFrom(s, r, r + 1, k, n).Some? ==> RewriteFrom(s, begin, i, k, n).Some?)
  {
    hide SkipZeros; hide SkipDigits; hide FindPercent; hide RewriteFrom; hide ValuePart; hide ZerosThenWidth;
    assert "%" + z + w + ['%'] + rest == s[i..];
    PieceAt(s, i, z, w, '%', rest);
    RewriteCases(s, begin, i, k, n);
  }

  lemma TakeIsRewritten(s: string, begin: nat, i: nat, k: nat, n: nat, z: string, w: string, c: char, rest: string)
    requires begin <= i <= |s| && s[i..] == "%" + z + w + [c] + rest && ZerosThenWidth(z, w)
    requires k < n && c in "sradiuxXo"
    ensures var r := i + 1 + |z| + |w|;
      && r < |s| && s[r + 1..] == rest
      && (RewriteFrom(s, r + 1, r + 1, k + 1, n).Some? ==> RewriteFrom(s, begin, i, k, n).Some?)
  {
    hide SkipZeros; hide SkipDigits; hide FindPercent; hide RewriteFrom; hide ZerosThenWidth;
    PieceAt(s, i, z, w, c, rest);
    RewriteCases(s, begin, i, k, n);
  }

  lemma FirstPiece(t: string, n: int, pieces: seq<Piece>)
    requires MadeOf(t, n, pieces) && pieces != []
    ensures var (x, after) := (pieces[0], RenderAll(pieces[1..]));
      GoodPiece(x) && t == Render(x) + after && MadeOf(after, if x.Take? then n - 1 else n, pieces[1..])
    ensures pieces[0].Take? ==> n > 0
  {
  }

  lemma NoPieces(t: string, n: int)
    requires MadeOf(t, n, [])
    ensures t == "" && n == 0
  {
  }

  /** A format that is made of good pieces is rewritten. */
  lemma {:induction false} PiecesAreRewritten(s: string, begin: nat, i: nat, k: nat, n: nat, pieces: seq<Piece>)
    requires begin <= i <= |s| && k <= n && MadeOf(s[i..], n - k, pieces)
    ensures RewriteFrom(s, begin, i, k, n).Some?
    decreases |pieces|
  {
    hide SkipZeros; hide SkipDigits; hide FindPercent; hide RewriteFrom; hide ZerosThenWidth; hide NoPercent;
    hide MadeOf; hide RenderAll;
    if pieces == [] {
      NoPieces(s[i..], n - k);
      EndIsRewritten(s, begin, k);
    } else {
      var rest := pieces[1..];
      var after := RenderAll(rest);
      FirstPiece(s[i..], n - k, pieces);
      match pieces[0]
      case Plain(t) =>
        PlainAt(s, i, t, after);
        PiecesAreRewritten(s, begin, i + |t|, k, n, rest);
        SamePercent(s, begin, i, i + |t|, k, n);
      case Double(z, w) =>
        DoubleIsRewritten(s, begin, i, k, n, z, w, after);
        PiecesAreRewritten(s, i + 1 + |z| + |w|, i + 2 + |z| + |w|, k, n, rest);
      case Take(z, w, c) =>
        TakeIsRewritten(s, begin, i, k, n, z, w, c, after);
        PiecesAreRewritten(s, i + 2 + |z| + |w|, i + 2 + |z| + |w|, k + 1, n, rest);
    }
  }

  lemma EndIsRewritten(s: string, begin: nat, k: nat)
    requires begin <= |s|
    ensures RewriteFrom(s, begin, |s|, k, k).Some?
  {
  }

  lemma SamePercent(s: string, begin: nat, i: nat, m: nat, k: nat, n: nat)
    requires begin <= i <= m <= |s| && FindPercent(s, i) == FindPercent(s, m)
    ensures RewriteFrom(s, begin, i, k, n) == RewriteFrom(s, begin, m, k, n)
  {
    hide SkipZeros; hide SkipDigits; hide FindPercent; hide ValuePart; hide RewriteFrom; hide Cons; hide TextPart;
    RewriteCases(s, begin, i, k, n);
    RewriteCases(s, begin, m, k, n);
  }

  /** The pieces of a format that is rewritten. */
  lemma {:induction false} RewrittenIsPieces(s: string, begin: nat, i: nat, k: nat, n: nat) returns (pieces: seq<Piece>)
    requires begin <= i <= |s| && RewriteFrom(s, begin, i, k, n).Some?
    ensures k <= n && MadeOf(s[i..], n - k, pieces)
    decreases |s| - i
  {
    hide SkipZeros; hide SkipDigits; hide FindPercent; hide RewriteFrom; hide MadeOf; hide ValuePart; hide TextPart;
    RewriteCases(s, begin, i, k, n);
    var j := FindPercent(s, i);
    if j == |s| {
      EndPieces(s, begin, i, k, n);
      pieces := [Plain(s[i..])];
    } else {
      var q := SkipZeros(s, j + 1);
      var r := SkipDigits(s, q);
      if s[r] == '%' {
        pieces := RewrittenIsPieces(s, r, r + 1, k, n);
        MorePieces(s, i, j, q, r, k, n - k, pieces);
        pieces := [Plain(s[i..j]), Double(s[j + 1..q], s[q..r])] + pieces;
      } else {
        pieces := RewrittenIsPieces(s, r + 1, r + 1, k + 1, n);
        MorePieces(s, i, j, q, r, k, n - k - 1, pieces);
        pieces := [Plain(s[i..j]), Take(s[j + 1..q], s[q..r], s[r])] + pieces;
      }
    }
  }

  lemma MorePieces(s: string, i: nat, j: nat, q: nat, r: nat, k: nat, n: int, pieces: seq<Piece>)
    requires i <= |s| && j == FindPercent(s, i) < |s| && q == SkipZeros(s, j + 1) && r == SkipDigits(s, q) < |s|
    requires s[r] == '%' || ValuePart(k, s[r], s[j + 1..r], r > q).Some?
    requires MadeOf(s[r + 1..], n, pieces)
    ensures i <= j < q <= r
    ensures var x := if s[r] == '%' then Double(s[j + 1..q], s[q..r]) else Take(s[j + 1..q], s[q..r], s[r]);
      MadeOf(s[i..], if s[r] == '%' then n else n + 1, [Plain(s[i..j]), x] + pieces)
  {
    hide SkipZeros; hide SkipDigits; hide FindPercent; hide GoodPiece; hide Render; hide RenderAll; hide Takes;
    hide GoodPieces;
    var x := if s[r] == '%' then Double(s[j + 1..q], s[q..r]) else Take(s[j + 1..q], s[q..r], s[r]);
    PieceIsGood(s, i, j, q, r, k);
    PlainRenders(s[i..j]);
    TwoMore(Plain(s[i..j]), x, pieces);
    assert s[i..] == s[i..j] + (s[j..r + 1] + s[r + 1..]);
  }

  lemma PlainRenders(t: string)
    ensures Render(Plain(t)) == t
  {
  }

  lemma EndPieces(s: string, begin: nat, i: nat, k: nat, n: nat)
    requires begin <= i <= |s| && FindPercent(s, i) == |s| && RewriteFrom(s, begin, i, k, n).Some?
    ensures k == n && MadeOf(s[i..], 0, [Plain(s[i..])])
  {
    hide FindPercent;
    var pieces := [Plain(s[i..])];
    assert pieces[1..] == [] && s[i..] + "" == s[i..];
    assert RenderAll([]) == "" && Takes([]) == 0;
    assert pieces[0] == Plain(s[i..]);
  }

  lemma PieceIsGood(s: string, i: nat, j: nat, q: nat, r: nat, k: nat)
    requires i <= |s| && j == FindPercent(s, i) < |s| && q == SkipZeros(s, j + 1) && r == SkipDigits(s, q) < |s|
    requires s[r] == '%' || ValuePart(k, s[r], s[j + 1..r], r > q).Some?
    ensures i <= j < q <= r && GoodPiece(Plain(s[i..j]))
    ensures var x := if s[r] == '%' then Double(s[j + 1..q], s[q..r]) else Take(s[j + 1..q], s[q..r], s[r]);
      GoodPiece(x) && Render(x) == s[j..r + 1]
  {
    hide SkipZeros; hide SkipDigits; hide FindPercent;
    assert s[j..r + 1] == "%" + s[j + 1..q] + s[q..r] + [s[r]];
  }

  lemma TwoMore(a: Piece, b: Piece, pieces: seq<Piece>)
    ensures RenderAll([a, b] + pieces) == Render(a) + (Render(b) + RenderAll(pieces))
    ensures Takes([a, b] + pieces) == (if a.Take? then 1 else 0) + (if b.Take? then 1 else 0) + Takes(pieces)
    ensures GoodPiece(a) && GoodPiece(b) && GoodPieces(pieces) ==> GoodPieces([a, b] + pieces)
  {
    hide Render; hide GoodPiece;
    var all := [a, b] + pieces;
    assert all[1..] == [b] + pieces && ([b] + pieces)[1..] == pieces;
  }

  // ----- the first scan -----

  /** Text before a `%`, and the character after it. */
  datatype Pair = Pair(text: string, ch: char)

  function RenderPairs(pairs: seq<Pair>): string {
    if pairs == [] then "" else pairs[0].text + "%" + [pairs[0].ch] + RenderPairs(pairs[1..])
  }

  function Counted(pairs: seq<Pair>): nat {
    if pairs == [] then 0 else (if pairs[0].ch == '%' then 0 else 1) + Counted(pairs[1..])
  }

  /** `t` is `pairs` and then text; no `%` is followed by a parenthesis or ends the string. */
  ghost predicate Scanned(t: string, n: nat, pairs: seq<Pair>, tail: string) {
    && (forall i :: 0 <= i < |pairs| ==> NoPercent(pairs[i].text) && pairs[i].ch != '(')
    && NoPercent(tail) && t == RenderPairs(pairs) + tail && Counted(pairs) == n
  }

  lemma {:induction false} PairsAreCounted(s: string, i: nat, n: nat, pairs: seq<Pair>, tail: string)
    requires i <= |s| && Scanned(s[i..], n, pairs, tail)
    ensures Specifiers(s, i) == Some(n)
    decreases |pairs|
  {
    hide FindPercent; hide NoPercent; hide Specifiers;
    if pairs == [] {
      assert s[i..] == tail + "" && s[|s|..] == "";
      PlainAt(s, i, tail, "");
      AtEnd(s, i);
    } else {
      var x, rest := pairs[0], pairs[1..];
      var after := RenderPairs(rest) + tail;
      assert s[i..] == x.text + ("%" + [x.ch] + after);
      PairHere(s, i, x, after);
      PairsAreCounted(s, i + |x.text| + 2, Counted(rest), rest, tail);
    }
  }

  lemma AtEnd(s: string, i: nat)
    requires i <= |s| && FindPercent(s, i) == FindPercent(s, |s|)
    ensures Specifiers(s, i) == Some(0)
  {
  }

  lemma PairHere(s: string, i: nat, x: Pair, after: string)
    requires i <= |s| && s[i..] == x.text + ("%" + [x.ch] + after) && NoPercent(x.text) && x.ch != '('
    ensures var m := i + |x.text| + 2;
      && m <= |s| && s[m..] == after
      && (Specifiers(s, m).Some? ==>
            Specifiers(s, i) == Some(Specifiers(s, m).value + if x.ch == '%' then 0 else 1))
  {
    hide NoPercent; hide FindPercent; hide Specifiers;
    var j := i + |x.text|;
    PlainAt(s, i, x.text, "%" + [x.ch] + after);
    PercentAndNext(s, j, x.ch, after);
    CountOne(s, i, j);
  }

  lemma PercentAndNext(s: string, j: nat, c: char, after: string)
    requires j <= |s| && s[j..] == "%" + [c] + after
    ensures j + 2 <= |s| && s[j] == '%' && s[j + 1] == c && s[j + 2..] == after && FindPercent(s, j) == j
  {
    var t := "%" + [c] + after;
    assert s[j] == s[j..][0] == t[0] && s[j + 1] == s[j..][1] == t[1] && s[j + 2..] == s[j..][2..] == t[2..] == after;
  }

  lemma CountOne(s: string, i: nat, j: nat)
    requires i <= |s| && FindPercent(s, i) == j && j + 1 < |s| && s[j + 1] != '('
    ensures Specifiers(s, j + 2).Some? ==>
      Specifiers(s, i) == Some(Specifiers(s, j + 2).value + if s[j + 1] == '%' then 0 else 1)
  {
    hide FindPercent;
  }

  lemma CountedAfter(s: string, i: nat)
    requires i <= |s| && Specifiers(s, i).Some?
    ensures var j := FindPercent(s, i);
      if j == |s| then Specifiers(s, i).value == 0
      else
        && j + 1 < |s| && s[j + 1] != '(' && Specifiers(s, j + 2).Some?
        && Specifiers(s, i).value == Specifiers(s, j + 2).value + if s[j + 1] == '%' then 0 else 1
  {
    hide FindPercent;
  }

  lemma NoPair(t: string)
    requires NoPercent(t)
    ensures Scanned(t, 0, [], t)
  {
    assert "" + t == t;
  }

  lemma {:induction false} CountedIsPairs(s: string, i: nat) returns (pairs: seq<Pair>, tail: string)
    requires i <= |s| && Specifiers(s, i).Some?
    ensures Scanned(s[i..], Specifiers(s, i).value, pairs, tail)
    decreases |s| - i
  {
    hide FindPercent; hide Specifiers; hide Scanned;
    var j := FindPercent(s, i);
    CountedAfter(s, i);
    if j == |s| {
      pairs, tail := [], s[i..];
      NoPair(tail);
    } else {
      var rest;
      rest, tail := CountedIsPairs(s, j + 2);
      assert s[i..] == s[i..j] + "%" + [s[j + 1]] + s[j + 2..];
      OneMorePair(s[j + 2..], Specifiers(s, j + 2).value, Pair(s[i..j], s[j + 1]), rest, tail);
      pairs := [Pair(s[i..j], s[j + 1])] + rest;
    }
  }

  lemma OneMorePair(t: string, n: nat, x: Pair, rest: seq<Pair>, tail: string)
    requires Scanned(t, n, rest, tail) && NoPercent(x.text) && x.ch != '('
    ensures Scanned(x.text + "%" + [x.ch] + t, if x.ch == '%' then n else n + 1, [x] + rest, tail)
  {
    hide NoPercent;
    var pairs := [x] + rest;
    assert pairs[1..] == rest && pairs[0] == x;
    assert RenderPairs(pairs) + tail == x.text + "%" + [x.ch] + (RenderPairs(rest) + tail);
  }

  // ----- both -----

  /** A format is rewritten exactly if no `%` ends it or stands before a parenthesis, as the first
      scan pairs them, it is made of text, `%%` and supported conversions, as many as the right
      side shows values, and for a right side that is no tuple display the first scan, too,
      counts one. */
  lemma RewrittenIff(s: string, right: Right)
    ensures Rewrite(s, right).Some? <==>
      && (exists pairs, tail, n: nat :: Scanned(s, n, pairs, tail) && (right.Single? ==> n == 1))
      && (exists pieces :: MadeOf(s, NumValues(right), pieces))
  {
    hide Specifiers; hide RewriteFrom; hide Scanned; hide MadeOf;
    assert s[0..] == s;
    if Rewrite(s, right).Some? {
      var pairs, tail := CountedIsPairs(s, 0);
      var pieces := RewrittenIsPieces(s, 0, 0, 0, NumValues(right));
      assert Scanned(s, Specifiers(s, 0).value, pairs, tail) && MadeOf(s, NumValues(right), pieces);
    }
    if pairs, tail, n: nat :| Scanned(s, n, pairs, tail) && (right.Single? ==> n == 1) {
      PairsAreCounted(s, 0, n, pairs, tail);
      if pieces :| MadeOf(s, NumValues(right), pieces) {
        PiecesAreRewritten(s, 0, 0, 0, NumValues(right), pieces);
      }
    }
  }
}
