/** Where a line ends, for the three newline modes of a text stream. */
module Lines {
  import opened Strings

  /** `newline=None`, `newline=""`, and a given line terminator. */
  datatype Mode = Translating | Universal | Exact(nl: string)

  predicate ValidMode(mode: Mode) {
    mode.Exact? ==> mode.nl == "\n" || mode.nl == "\r" || mode.nl == "\r\n"
  }

  /** Length of the terminator that starts at `k`; 0 if none does. */
  function Terminator(mode: Mode, t: string, k: nat): nat
    requires k < |t|
  {
    match mode
    case Translating => if t[k] == '\n' then 1 else 0
    case Universal =>
      if t[k] == '\n' then 1
      else if t[k] != '\r' then 0
      else if k + 1 < |t| && t[k + 1] == '\n' then 2
      else 1
    case Exact(nl) => if MatchAt(t, nl, k) then |nl| else 0
  }

  /** The end of the first line that starts at or after `k`. */
  function LineEndFrom(mode: Mode, t: string, k: nat): nat
    requires k <= |t|
    decreases |t| - k
  {
    if k == |t| then |t|
    else if Terminator(mode, t, k) > 0 then k + Terminator(mode, t, k)
    else LineEndFrom(mode, t, k + 1)
  }

  function LineEnd(mode: Mode, t: string): nat {
    LineEndFrom(mode, t, 0)
  }

  ghost predicate NoTerminator(mode: Mode, t: string, n: nat) {
    forall k :: 0 <= k < n && k < |t| ==> Terminator(mode, t, k) == 0
  }

  lemma {:induction false} FirstTerminator(mode: Mode, t: string, i: nat, k: nat)
    requires i <= k < |t| && NoTerminator(mode, t, k) && Terminator(mode, t, k) > 0
    ensures LineEndFrom(mode, t, i) == k + Terminator(mode, t, k)
    decreases k - i
  {
    if i < k { FirstTerminator(mode, t, i + 1, k); }
  }

  lemma {:induction false} NoLineEndBefore(mode: Mode, t: string, i: nat, n: nat)
    requires i <= |t| && n <= |t|
    requires forall k :: 0 <= k < |t| && Terminator(mode, t, k) > 0 ==> k + Terminator(mode, t, k) >= n
    ensures n <= LineEndFrom(mode, t, i) <= |t|
    decreases |t| - i
  {
    if i < |t| { NoLineEndBefore(mode, t, i + 1, n); }
  }

  lemma LineEndInRange(mode: Mode, t: string)
    ensures LineEnd(mode, t) <= |t|
  {
    NoLineEndBefore(mode, t, 0, 0);
  }

  /** A line has no terminator that ends before it does. */
  lemma {:induction false} LineHasNoInnerTerminator(mode: Mode, t: string, i: nat, k: nat)
    requires ValidMode(mode) && i <= k < |t| && Terminator(mode, t, k) > 0
    ensures LineEndFrom(mode, t, i) <= k + Terminator(mode, t, k)
    decreases k - i
  {
    if i < k && Terminator(mode, t, i) == 0 { LineHasNoInnerTerminator(mode, t, i + 1, k); }
  }

  lemma CharAt(t: string, c: char, k: nat)
    ensures MatchAt(t, [c], k) <==> k < |t| && t[k] == c
  {
    if k < |t| { assert t[k..k + 1] == [t[k]]; }
  }

  ghost predicate FirstTerminatorAt(mode: Mode, t: string, k: nat) {
    k < |t| && NoTerminator(mode, t, k) && Terminator(mode, t, k) > 0
  }

  /** The search of `readline`: no terminator lies before `start`. */
  method SearchLineEnd(mode: Mode, line: string, start: nat) returns (endpos: int, ghost at: nat)
    requires ValidMode(mode) && start <= |line| && NoTerminator(mode, line, start)
    ensures endpos < 0 ==> endpos == -1 && NoTerminator(mode, line, |line|)
    ensures endpos >= 0 ==> FirstTerminatorAt(mode, line, at) && endpos == at + Terminator(mode, line, at)
  {
    endpos, at := -1, 0;
    forall c: char, k: nat ensures MatchAt(line, [c], k) <==> k < |line| && line[k] == c {
      CharAt(line, c, k);
    }
    match mode
    case Translating =>
      var pos := Find(line, "\n", start, |line|);
      if pos >= 0 {
        endpos, at := pos + 1, pos;
      }
    case Universal =>
      var nlpos := Find(line, "\n", start, |line|);
      var crpos := Find(line, "\r", start, |line|);
      if crpos == -1 {
        if nlpos != -1 {
          endpos, at := nlpos + 1, nlpos;
        }
      } else if nlpos == -1 {
        endpos, at := crpos + 1, crpos;
      } else if nlpos < crpos {
        endpos, at := nlpos + 1, nlpos;
      } else if nlpos == crpos + 1 {
        endpos, at := crpos + 2, crpos;
      } else {
        endpos, at := crpos + 1, crpos;
      }
    case Exact(nl) =>
      var pos := Find(line, nl, 0, |line|);
      if pos >= 0 {
        endpos, at := pos + |nl|, pos;
      }
  }

  // ----- a line found in a prefix of the text -----

  /** The text may be cut after `line` without splitting a two-character newline. */
  predicate CutIsSafe(mode: Mode, line: string, t: string)
    requires line <= t
  {
    mode.Universal? && line != "" && line[|line| - 1] == '\r' && |line| < |t| ==> t[|line|] != '\n'
  }

  lemma PrefixTerminator(mode: Mode, line: string, t: string, k: nat)
    requires ValidMode(mode) && line <= t && CutIsSafe(mode, line, t) && k < |line|
    ensures Terminator(mode, line, k) > 0 ==> Terminator(mode, t, k) == Terminator(mode, line, k)
    ensures Terminator(mode, line, k) == 0 && Terminator(mode, t, k) > 0 ==> k + Terminator(mode, t, k) > |line|
  {
    if mode.Exact? && k + |mode.nl| <= |line| {
      assert line[k..k + |mode.nl|] == t[k..k + |mode.nl|];
    }
  }

  /** The end found in a prefix is the end of the line in the whole text. */
  lemma FoundInPrefix(mode: Mode, line: string, t: string, at: nat)
    requires ValidMode(mode) && line <= t && CutIsSafe(mode, line, t)
    requires FirstTerminatorAt(mode, line, at)
    ensures LineEnd(mode, t) == at + Terminator(mode, line, at) <= |line|
  {
    forall k | 0 <= k < at ensures Terminator(mode, t, k) == 0 {
      PrefixTerminator(mode, line, t, k);
    }
    PrefixTerminator(mode, line, t, at);
    FirstTerminator(mode, t, 0, at);
  }

  lemma NotFoundInPrefix(mode: Mode, line: string, t: string)
    requires ValidMode(mode) && line <= t && CutIsSafe(mode, line, t)
    requires NoTerminator(mode, line, |line|)
    ensures LineEnd(mode, t) >= |line|
    ensures forall k :: 0 <= k < |line| && Terminator(mode, t, k) > 0 ==> k + Terminator(mode, t, k) > |line|
  {
    forall k | 0 <= k < |t| && Terminator(mode, t, k) > 0
      ensures k + Terminator(mode, t, k) >= |line|
      ensures k < |line| ==> k + Terminator(mode, t, k) > |line|
    {
      if k < |line| { PrefixTerminator(mode, line, t, k); }
    }
    NoLineEndBefore(mode, t, 0, |line|);
  }
}
