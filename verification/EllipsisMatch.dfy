/** `_ellipsis_match`: expected output in which "..." stands for anything. */
module EllipsisMatch {
  import opened Strings

  const MARKER := "..."

  /** Where the first marker of `t` stands, or -1. */
  function FirstMarker(t: string): (r: int)
    ensures r >= 0 ==> r + 3 <= |t| && MatchAt(t, MARKER, r)
    ensures forall i :: 0 <= i && i + 3 <= |t| && (r < 0 || i < r) ==> !MatchAt(t, MARKER, i)
  {
    Find(t, MARKER, 0, |t|)
  }

  /** `want.split("...")` */
  function Split(want: string): (ws: seq<string>)
    ensures |ws| >= 1 && (|ws| == 1 ==> ws == [want])
    ensures |ws| == 1 <==> FirstMarker(want) < 0
    decreases |want|
  {
    var i := FirstMarker(want);
    if i < 0 then [want] else [want[..i]] + Split(want[i + 3..])
  }

  /** Pieces with gaps between them. */
  function Joined(ws: seq<string>, gaps: seq<string>): string
    requires |ws| == |gaps| + 1
  {
    if |ws| == 1 then ws[0] else ws[0] + gaps[0] + Joined(ws[1..], gaps[1..])
  }

  ghost predicate Matches(ws: seq<string>, got: string) {
    exists gaps: seq<string> :: |ws| == |gaps| + 1 && got == Joined(ws, gaps)
  }

  predicate AllMarkers(gaps: seq<string>) {
    forall i :: 0 <= i < |gaps| ==> gaps[i] == MARKER
  }

  predicate NoMarkers(ws: seq<string>) {
    forall k :: 0 <= k < |ws| ==> FirstMarker(ws[k]) < 0
  }

  /** With the marker after it, no piece holds one further left. */
  predicate MarkersLeftmost(ws: seq<string>) {
    forall k :: 0 <= k < |ws| - 1 ==> FirstMarker(ws[k] + MARKER) == |ws[k]|
  }

  /** The pieces of `want` are what "..." separates in it, taken from the left. */
  lemma {:induction false} SplitJoins(want: string) returns (gaps: seq<string>)
    ensures |Split(want)| == |gaps| + 1 && AllMarkers(gaps) && want == Joined(Split(want), gaps)
    ensures NoMarkers(Split(want)) && MarkersLeftmost(Split(want))
    decreases |want|
  {
    hide FirstMarker; hide MatchAt;
    var i := FirstMarker(want);
    if i < 0 {
      gaps := [];
    } else {
      var first, more := want[..i], Split(want[i + 3..]);
      var rest := SplitJoins(want[i + 3..]);
      gaps := [MARKER] + rest;
      assert Split(want) == [first] + more && ([first] + more)[1..] == more && gaps[1..] == rest;
      MarkerHere(want, i);
      NoMarkerBefore(want, i);
      MarkerIsFirst(want, i);
    }
  }

  lemma MarkerHere(t: string, i: nat)
    requires MatchAt(t, MARKER, i)
    ensures i + 3 <= |t| && t == t[..i] + MARKER + t[i + 3..]
  {
  }

  lemma NoMarkerBefore(want: string, i: nat)
    requires FirstMarker(want) == i && i <= |want|
    ensures FirstMarker(want[..i]) < 0
  {
    hide FirstMarker;
    var j := FirstMarker(want[..i]);
    assert j >= 0 ==> MatchAt(want, MARKER, j) && j + 3 <= i;
  }

  lemma MarkerIsFirst(want: string, i: nat)
    requires i + 3 <= |want| && FirstMarker(want) == i
    ensures FirstMarker(want[..i] + MARKER) == i
  {
    hide FirstMarker;
    var t := want[..i] + MARKER;
    assert t == want[..i + 3];
    assert MatchAt(t, MARKER, i);
    var j := FirstMarker(t);
    assert 0 <= j < i ==> MatchAt(want, MARKER, j);
  }

  // ----- greedy search -----

  /** The pieces can be placed in order, without overlap, in `t[lo..hi]`. */
  ghost predicate Placeable(ws: seq<string>, t: string, lo: nat, hi: nat)
    requires hi <= |t|
    decreases |ws|
  {
    if ws == [] then lo <= hi
    else exists i :: lo <= i && i + |ws[0]| <= hi && MatchAt(t, ws[0], i) && Placeable(ws[1..], t, i + |ws[0]|, hi)
  }

  /** Starting earlier does no harm. */
  lemma {:induction false} PlaceableEarlier(ws: seq<string>, t: string, lo: nat, lo1: nat, hi: nat)
    requires lo1 <= lo && hi <= |t| && Placeable(ws, t, lo, hi)
    ensures Placeable(ws, t, lo1, hi)
  {
  }

  /** Taking the leftmost place for the first piece loses nothing. */
  lemma GreedyIsComplete(ws: seq<string>, t: string, lo: nat, hi: nat)
    requires ws != [] && hi <= |t|
    ensures var r := Find(t, ws[0], lo, hi);
      Placeable(ws, t, lo, hi) <==> r >= 0 && Placeable(ws[1..], t, r + |ws[0]|, hi)
  {
    var r := Find(t, ws[0], lo, hi);
    if Placeable(ws, t, lo, hi) {
      var i: nat :| lo <= i && i + |ws[0]| <= hi && MatchAt(t, ws[0], i) && Placeable(ws[1..], t, i + |ws[0]|, hi);
      PlaceableEarlier(ws[1..], t, i + |ws[0]|, r + |ws[0]|, hi);
    }
  }

  lemma {:induction false} PlaceableLeavesRoom(ws: seq<string>, t: string, lo: nat, hi: nat)
    requires hi <= |t| && Placeable(ws, t, lo, hi)
    ensures lo <= hi
  {
  }

  /** An empty piece at an end can always be placed. */
  lemma EmptyFirst(ws: seq<string>, t: string, lo: nat, hi: nat)
    requires hi <= |t|
    ensures Placeable([""] + ws, t, lo, hi) <==> Placeable(ws, t, lo, hi)
  {
    var all := [""] + ws;
    assert all[1..] == ws;
    GreedyIsComplete(all, t, lo, hi);
    if Placeable(ws, t, lo, hi) {
      PlaceableLeavesRoom(ws, t, lo, hi);
      assert MatchAt(t, "", lo);
    }
  }

  lemma {:induction false} EmptyLast(ws: seq<string>, t: string, lo: nat, hi: nat)
    requires hi <= |t|
    ensures Placeable(ws + [""], t, lo, hi) <==> Placeable(ws, t, lo, hi)
    decreases |ws|
  {
    if ws == [] {
      EmptyFirst([], t, lo, hi);
      assert [] + [""] == [""] + [];
    } else {
      var all := ws + [""];
      assert all[1..] == ws[1..] + [""];
      GreedyIsComplete(all, t, lo, hi);
      GreedyIsComplete(ws, t, lo, hi);
      var r := Find(t, ws[0], lo, hi);
      if r >= 0 { EmptyLast(ws[1..], t, r + |ws[0]|, hi); }
    }
  }

  predicate StartsWith(t: string, w: string) {
    |w| <= |t| && t[..|w|] == w
  }

  predicate EndsWith(t: string, w: string) {
    |w| <= |t| && t[|t| - |w|..] == w
  }

  /** The first piece at `lo`, the last at the end, and the others in between. */
  ghost predicate Placed(ws: seq<string>, t: string, lo: nat)
    requires |ws| >= 2 && lo <= |t|
  {
    var first, last := ws[0], ws[|ws| - 1];
    && StartsWith(t[lo..], first) && EndsWith(t, last) && lo + |first| <= |t| - |last|
    && Placeable(ws[1..|ws| - 1], t, lo + |first|, |t| - |last|)
  }

  lemma MiddleTail(ws: seq<string>)
    requires |ws| >= 3
    ensures ws[1..|ws| - 1][1..] == ws[1..][1..|ws| - 2]
  {
    var a, b := ws[1..|ws| - 1][1..], ws[1..][1..|ws| - 2];
    assert |a| == |b|;
    forall k | 0 <= k < |a| ensures a[k] == b[k] {
      assert a[k] == ws[k + 2];
      assert b[k] == ws[k + 2];
    }
  }

  lemma {:induction false} JoinedIsPlaced(ws: seq<string>, gaps: seq<string>, t: string, lo: nat)
    requires |ws| >= 2 && |ws| == |gaps| + 1 && lo <= |t| && t[lo..] == Joined(ws, gaps)
    ensures Placed(ws, t, lo)
    decreases |ws|
  {
    var i := lo + |ws[0]| + |gaps[0]|;
    var tail := Joined(ws[1..], gaps[1..]);
    assert t[i..] == t[lo..][|ws[0]| + |gaps[0]|..] == tail;
    if |ws| == 2 {
      assert tail == ws[1] && |t| - |ws[1]| == i;
      assert ws[1..1] == [];
    } else {
      JoinedIsPlaced(ws[1..], gaps[1..], t, i);
      var middle := ws[1..|ws| - 1];
      assert middle[0] == ws[1];
      MiddleTail(ws);
      assert t[i..][..|ws[1]|] == ws[1];
      assert MatchAt(t, ws[1], i);
      PlaceableLeavesRoom(middle[1..], t, i + |ws[1]|, |t| - |ws[|ws| - 1]|);
    }
  }

  lemma {:induction false} PlacedIsJoined(ws: seq<string>, t: string, lo: nat) returns (gaps: seq<string>)
    requires |ws| >= 2 && lo <= |t| && Placed(ws, t, lo)
    ensures |ws| == |gaps| + 1 && t[lo..] == Joined(ws, gaps)
    decreases |ws|
  {
    if |ws| == 2 {
      gaps := TwoPlaced(ws, t, lo);
    } else {
      hide Joined; hide StartsWith; hide EndsWith;
      var middle, from, hi := ws[1..|ws| - 1], lo + |ws[0]|, |t| - |ws[|ws| - 1]|;
      var i: nat :| from <= i && i + |middle[0]| <= hi && MatchAt(t, middle[0], i)
                    && Placeable(middle[1..], t, i + |middle[0]|, hi);
      NextPlaced(ws, t, i);
      var rest := PlacedIsJoined(ws[1..], t, i);
      gaps := [t[from..i]] + rest;
      StretchJoins(ws, rest, t, lo, i);
    }
  }

  lemma TwoPlaced(ws: seq<string>, t: string, lo: nat) returns (gaps: seq<string>)
    requires |ws| == 2 && lo <= |t| && Placed(ws, t, lo)
    ensures |gaps| == 1 && t[lo..] == Joined(ws, gaps)
  {
    var first, last := ws[0], ws[1];
    var from, hi := lo + |first|, |t| - |last|;
    gaps := [t[from..hi]];
    assert t[lo..] == first + t[from..] && t[from..] == gaps[0] + last && Joined(ws[1..], gaps[1..]) == last;
    assert first + (gaps[0] + last) == first + gaps[0] + last;
  }

  lemma StretchJoins(ws: seq<string>, rest: seq<string>, t: string, lo: nat, i: nat)
    requires |ws| >= 2 && |ws| == |rest| + 2 && lo <= |t| && StartsWith(t[lo..], ws[0])
    requires lo + |ws[0]| <= i <= |t| && t[i..] == Joined(ws[1..], rest)
    ensures t[lo..] == Joined(ws, [t[lo + |ws[0]|..i]] + rest)
  {
    var first, from := ws[0], lo + |ws[0]|;
    JoinedCons(first, ws[1..], t[from..i], rest);
    assert [first] + ws[1..] == ws;
    assert t[lo..] == first + t[from..i] + t[i..];
  }

  lemma NextPlaced(ws: seq<string>, t: string, i: nat)
    requires |ws| >= 3 && EndsWith(t, ws[|ws| - 1]) && MatchAt(t, ws[1], i) && i + |ws[1]| <= |t| - |ws[|ws| - 1]|
    requires Placeable(ws[1..|ws| - 1][1..], t, i + |ws[1]|, |t| - |ws[|ws| - 1]|)
    ensures Placed(ws[1..], t, i)
  {
    MiddleTail(ws);
    assert t[i..][..|ws[1]|] == t[i..i + |ws[1]|];
  }

  lemma JoinedCons(first: string, ws: seq<string>, gap: string, gaps: seq<string>)
    requires |ws| == |gaps| + 1
    ensures Joined([first] + ws, [gap] + gaps) == first + gap + Joined(ws, gaps)
  {
    assert ([first] + ws)[1..] == ws && ([gap] + gaps)[1..] == gaps;
  }

  /** Some gaps make `got` of the pieces exactly if the pieces can be placed in it. */
  lemma MatchesIffPlaced(ws: seq<string>, got: string)
    requires |ws| >= 2
    ensures Matches(ws, got) <==> Placed(ws, got, 0)
  {
    assert got[0..] == got;
    if Matches(ws, got) {
      var gaps: seq<string> :| |ws| == |gaps| + 1 && got == Joined(ws, gaps);
      JoinedIsPlaced(ws, gaps, got, 0);
    }
    if Placed(ws, got, 0) {
      var gaps := PlacedIsJoined(ws, got, 0);
    }
  }

  lemma OnePiece(want: string, got: string)
    ensures Matches([want], got) <==> want == got
  {
    assert Joined([want], []) == want;
  }

  /** The last loop: the leftmost place for each piece in turn. */
  method SearchPieces(ws: seq<string>, got: string, start: nat, endpos: nat) returns (found: bool)
    requires start <= endpos <= |got|
    ensures found <==> Placeable(ws, got, start, endpos)
  {
    hide Placeable; hide Find; hide MatchAt;
    var k: nat, startpos: nat := 0, start;
    assert ws[0..] == ws;
    while k < |ws|
      invariant k <= |ws| && startpos <= endpos
      invariant Placeable(ws, got, start, endpos) <==> Placeable(ws[k..], got, startpos, endpos)
    {
      GreedyIsComplete(ws[k..], got, startpos, endpos);
      assert ws[k..][1..] == ws[k + 1..];
      var r := Find(got, ws[k], startpos, endpos);
      if r < 0 {
        return false;
      }
      startpos := r + |ws[k]|;
      k := k + 1;
    }
    assert ws[k..] == [];
    NothingLeft(got, startpos, endpos);
    return true;
  }

  /** The exact matches that may be needed at the ends: the pieces that are left, and
      the stretch of `got` that is left for them. */
  method MatchEnds(pieces: seq<string>, got: string) returns (ok: bool, ws: seq<string>, startpos: nat, endpos: nat)
    requires |pieces| >= 2
    ensures ok ==> startpos <= endpos <= |got| && (Placeable(ws, got, startpos, endpos) <==> Placed(pieces, got, 0))
    ensures !ok ==> !Placed(pieces, got, 0)
  {
    hide Placeable; hide Placed; hide StartsWith; hide EndsWith;
    if Placed(pieces, got, 0) { PlacedEnds(pieces, got); }
    EmptyEnds(got);
    ok, ws, startpos, endpos := false, pieces, 0, |got|;
    var first, last := ws[0], ws[|ws| - 1];
    if first != "" {
      if !StartsWith(got, first) {
        return;
      }
      startpos := |first|;
      ws := ws[1..];
    }
    if last != "" {
      if !EndsWith(got, last) {
        return;
      }
      WithinLength(got, last);
      endpos := endpos - |last|;
      ws := ws[..|ws| - 1];
    }
    if startpos > endpos {
      return;
    }
    EndsRemoved(pieces, ws, got, startpos, endpos);
    ok := true;
  }

  lemma WithinLength(t: string, w: string)
    requires EndsWith(t, w)
    ensures |w| <= |t|
  {
  }

  method EllipsisMatch(want: string, got: string) returns (matched: bool)
    ensures matched <==> Matches(Split(want), got)
  {
    var pieces := Split(want);
    if FirstMarker(want) < 0 {
      OnePiece(want, got);
      return want == got;
    }
    MatchesIffPlaced(pieces, got);
    var ok, ws, startpos, endpos := MatchEnds(pieces, got);
    if !ok {
      return false;
    }
    matched := SearchPieces(ws, got, startpos, endpos);
  }

  lemma NothingLeft(t: string, lo: nat, hi: nat)
    requires hi <= |t|
    ensures Placeable([], t, lo, hi) <==> lo <= hi
  {
  }

  lemma PlacedEnds(ws: seq<string>, t: string)
    requires |ws| >= 2 && Placed(ws, t, 0)
    ensures StartsWith(t, ws[0]) && EndsWith(t, ws[|ws| - 1]) && |ws[0]| <= |t| - |ws[|ws| - 1]|
  {
    assert t[0..] == t;
  }

  lemma EmptyEnds(t: string)
    ensures StartsWith(t, "") && EndsWith(t, "")
  {
  }

  /** Empty pieces at the ends stay in the list and change nothing. */
  lemma EndsRemoved(pieces: seq<string>, ws: seq<string>, t: string, lo: nat, hi: nat)
    requires |pieces| >= 2 && hi <= |t|
    requires var first, last := pieces[0], pieces[|pieces| - 1];
      && StartsWith(t, first) && EndsWith(t, last) && lo == |first| <= hi == |t| - |last|
      && ws == pieces[if first == "" then 0 else 1..if last == "" then |pieces| else |pieces| - 1]
    ensures Placeable(ws, t, lo, hi) <==> Placed(pieces, t, 0)
  {
    var first, last := pieces[0], pieces[|pieces| - 1];
    var middle := pieces[1..|pieces| - 1];
    assert t[0..] == t;
    var left := (if first == "" then [""] else []) + middle;
    assert ws == left + if last == "" then [""] else [];
    if last == "" { EmptyLast(left, t, lo, hi); }
    assert left == if first == "" then [""] + middle else middle;
    if first == "" { EmptyFirst(middle, t, lo, hi); }
    assert ws == if last == "" then left + [""] else left;
  }
}
