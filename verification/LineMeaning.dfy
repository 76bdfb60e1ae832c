/** What a line is, told by newline translation and by the terminator's first occurrence. */
module LineMeaning {
  import opened Strings
  import opened Lines
  import opened NewlineDecoder

  lemma MatchLater(t: string, pat: string, k: nat)
    requires t != ""
    ensures MatchAt(t, pat, k + 1) <==> MatchAt(t[1..], pat, k)
  {
    if k + 1 + |pat| <= |t| { assert t[k + 1..k + 1 + |pat|] == t[1..][k..k + |pat|]; }
  }

  lemma {:induction false} LaterLineEnd(mode: Mode, t: string, k: nat)
    requires k < |t|
    ensures LineEndFrom(mode, t, k + 1) == 1 + LineEndFrom(mode, t[1..], k)
    decreases |t| - k
  {
    if k + 1 < |t| {
      LaterLineEnd(mode, t, k + 1);
      if mode.Exact? { MatchLater(t, mode.nl, k); }
    }
  }

  /** Lines do not depend on whether newlines are translated before or after they are cut:
      the first line of a text, translated, is the first line of the translated text, and so
      is what is left. */
  lemma {:induction false} TranslatedLines(t: string)
    ensures var e, f := LineEnd(Universal, t), LineEnd(Translating, Translate(t));
      && e <= |t| && f <= |Translate(t)|
      && Translate(t[..e]) == Translate(t)[..f] && Translate(t[e..]) == Translate(t)[f..]
    decreases |t|
  {
    hide Terminator; hide Translate; hide LineEnd;
    LineEndInRange(Universal, t);
    LineEndInRange(Translating, Translate(t));
    if t == "" {
      NoLine();
    } else if t[0] == '\n' || t[0] == '\r' {
      NewlineEndsLine(t);
    } else {
      var rest := t[1..];
      TranslatedLines(rest);
      FirstStays(t, LineEnd(Universal, rest), LineEnd(Translating, Translate(rest)));
      PlainFirst(t);
      PlainFirst(Translate(t));
      NextCharacter(Universal, t);
      NextCharacter(Translating, Translate(t));
    }
  }

  lemma NoLine()
    ensures Translate("") == "" && forall mode: Mode :: LineEnd(mode, "") == 0
  {
  }

  lemma NextCharacter(mode: Mode, t: string)
    requires t != "" && Terminator(mode, t, 0) == 0
    ensures LineEnd(mode, t) == 1 + LineEnd(mode, t[1..])
  {
    LaterLineEnd(mode, t, 0);
  }

  lemma PlainFirst(t: string)
    requires t != "" && t[0] != '\n' && t[0] != '\r'
    ensures Terminator(Universal, t, 0) == Terminator(Translating, t, 0) == 0
  {
  }

  lemma FirstStays(t: string, e: nat, f: nat)
    requires t != "" && t[0] != '\n' && t[0] != '\r' && e < |t| && f <= |Translate(t[1..])|
    requires Translate(t[1..][..e]) == Translate(t[1..])[..f] && Translate(t[1..][e..]) == Translate(t[1..])[f..]
    ensures Translate(t) != "" && Translate(t)[0] == t[0] && Translate(t)[1..] == Translate(t[1..])
    ensures Translate(t[..1 + e]) == Translate(t)[..1 + f] && Translate(t[1 + e..]) == Translate(t)[1 + f..]
  {
    var rest := t[1..];
    assert t[..1 + e][1..] == rest[..e] && t[1 + e..] == rest[e..];
    assert Translate(t) == [t[0]] + Translate(rest);
    assert Translate(t[..1 + e]) == [t[0]] + Translate(rest[..e]);
  }

  lemma NewlineEndsLine(t: string)
    requires t != "" && (t[0] == '\n' || t[0] == '\r')
    ensures var e := LineEnd(Universal, t);
      && e <= |t| && LineEnd(Translating, Translate(t)) == 1 && Translate(t) != ""
      && Translate(t[..e]) == Translate(t)[..1] == "\n" && Translate(t[e..]) == Translate(t)[1..]
  {
    var e := if StartsCrLf(t) then 2 else 1;
    assert LineEnd(Universal, t) == e;
    assert t[..e][e..] == "" && Translate("") == "";
    assert Translate(t) == "\n" + Translate(t[e..]) && Translate(t)[1..] == Translate(t[e..]);
    assert Translate(t[..e]) == "\n" + "";
  }

  /** A universal line never ends inside a pair, and it holds a newline only at its end. */
  lemma {:induction false} LineKeepsPairs(t: string)
    ensures var e := LineEnd(Universal, t);
      && e <= |t| && (t != "" ==> e > 0)
      && (0 < e < |t| ==> !(t[e - 1] == '\r' && t[e] == '\n'))
      && (forall k :: 0 <= k < e - 1 && (t[k] == '\n' || t[k] == '\r') ==>
            k == e - 2 && t[k] == '\r' && t[k + 1] == '\n')
      && (e < |t| ==> t[e - 1] == '\n' || t[e - 1] == '\r')
    decreases |t|
  {
    LineEndInRange(Universal, t);
    if t != "" && t[0] != '\n' && t[0] != '\r' {
      LineKeepsPairs(t[1..]);
      LaterLineEnd(Universal, t, 0);
      var e' := LineEnd(Universal, t[1..]);
      forall k | 0 <= k < e' && (t[k] == '\n' || t[k] == '\r')
        ensures k == e' - 1 && t[k] == '\r' && t[k + 1] == '\n'
      {
        assert t[1..][k - 1] == t[k];
      }
    }
  }

  /** The first place of `nl` in `t` is `k`. */
  predicate FirstAt(t: string, nl: string, k: nat) {
    MatchAt(t, nl, k) && forall j: nat :: j < k ==> !MatchAt(t, nl, j)
  }

  ghost predicate Nowhere(t: string, nl: string) {
    forall j: nat :: !MatchAt(t, nl, j)
  }

  /** With a given terminator, and with translated newlines, a line ends with the first
      occurrence of the terminator, or is the whole text. */
  lemma {:induction false} LineEndsAtFirst(mode: Mode, nl: string, t: string)
    requires nl != "" && (mode == Exact(nl) || (mode == Translating && nl == "\n"))
    ensures var e := LineEnd(mode, t);
      || (Nowhere(t, nl) && e == |t|)
      || (|nl| <= e <= |t| && FirstAt(t, nl, e - |nl|))
    decreases |t|
  {
    hide MatchAt;
    if t == "" {
      NoPlace(nl);
    } else {
      TerminatorIsMatch(mode, nl, t);
      if !MatchAt(t, nl, 0) {
        LaterLineEnd(mode, t, 0);
        LineEndsAtFirst(mode, nl, t[1..]);
        PlacesLater(t, nl);
        var e := LineEnd(mode, t[1..]);
        if !Nowhere(t[1..], nl) {
          forall j: nat | j < 1 + e - |nl| ensures !MatchAt(t, nl, j) {
            if j > 0 { assert !MatchAt(t[1..], nl, j - 1); }
          }
        }
      } else {
        MatchInRange(t, nl, 0);
      }
    }
  }

  lemma NoPlace(nl: string)
    requires nl != ""
    ensures Nowhere("", nl)
  {
  }

  lemma MatchInRange(t: string, nl: string, k: nat)
    requires MatchAt(t, nl, k)
    ensures k + |nl| <= |t|
  {
  }

  lemma TerminatorIsMatch(mode: Mode, nl: string, t: string)
    requires t != "" && nl != "" && (mode == Exact(nl) || (mode == Translating && nl == "\n"))
    ensures Terminator(mode, t, 0) == if MatchAt(t, nl, 0) then |nl| else 0
  {
    CharAt(t, '\n', 0);
  }

  lemma PlacesLater(t: string, nl: string)
    requires t != "" && !MatchAt(t, nl, 0)
    ensures Nowhere(t, nl) <==> Nowhere(t[1..], nl)
    ensures forall j: nat :: MatchAt(t[1..], nl, j) <==> MatchAt(t, nl, j + 1)
  {
    hide MatchAt;
    forall j: nat ensures MatchAt(t[1..], nl, j) <==> MatchAt(t, nl, j + 1) { MatchLater(t, nl, j); }
    if Nowhere(t, nl) {
      forall j: nat ensures !MatchAt(t[1..], nl, j) { assert !MatchAt(t, nl, j + 1); }
    }
    if Nowhere(t[1..], nl) {
      forall j: nat ensures !MatchAt(t, nl, j) { if j > 0 { assert !MatchAt(t[1..], nl, j - 1); } }
    }
  }
}
