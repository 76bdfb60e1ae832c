/** `AstOptimizerPyro.rewrite_str_mod`: a printf-style format applied to a tuple
    becomes an f-string. */
module PrintfRewrite {
  import opened Basics
  import opened Printf

  /** The parts of an f-string: text, `{value!conv:spec}` and `{convert(value):spec}`,
      where `value` is the element of the tuple at `arg` and `convert` is the helper
      `_mod_convert_number_index` or `_mod_convert_number_int`. */
  datatype Part =
    | Text(text: string)
    | StrValue(arg: nat, conv: char, spec: string)
    | IntValue(arg: nat, index: bool, spec: string)

  function SkipZeros(s: string, i: nat): (r: nat)
    requires i <= |s|
    ensures i <= r <= |s|
    ensures forall k :: i <= k < r ==> s[k] == '0'
    ensures r < |s| ==> s[r] != '0'
    decreases |s| - i
  {
    if i < |s| && s[i] == '0' then SkipZeros(s, i + 1) else i
  }

  function TextPart(t: string): seq<Part> {
    if t == "" then [] else [Text(t)]
  }

  /** The part for conversion `ch`; `spec` holds the zeros and the width. */
  function ValuePart(arg: nat, ch: char, spec: string, haveWidth: bool): Option<Part> {
    if ch == 's' || ch == 'r' || ch == 'a' then
      Some(StrValue(arg, ch, if haveWidth then ">" + spec else spec))
    else if ch == 'd' || ch == 'i' || ch == 'u' then Some(IntValue(arg, false, spec))
    else if ch == 'x' || ch == 'X' || ch == 'o' then Some(IntValue(arg, true, spec + [ch]))
    else None
  }

  function Cons(head: seq<Part>, rest: Option<seq<Part>>): Option<seq<Part>> {
    match rest
    case None => None
    case Some(parts) => Some(head + parts)
  }

  /** The parts from `begin` on; the search for the next `%` resumes at `i`. */
  function RewriteFrom(s: string, begin: nat, i: nat, k: nat, n: nat): Option<seq<Part>>
    requires begin <= i <= |s|
    decreases |s| - i
  {
    var j := FindPercent(s, i);
    if j == |s| then (if k != n then None else Some(TextPart(s[begin..])))
    else
      var p := j + 1;
      var q := SkipZeros(s, p);
      var r := SkipDigits(s, q);
      if r == |s| then None
      else if s[r] == '%' then Cons(TextPart(s[begin..j]), RewriteFrom(s, r, r + 1, k, n))
      else if k >= n then None
      else match ValuePart(k, s[r], s[p..r], r > q)
        case None => None
        case Some(part) => Cons(TextPart(s[begin..j]) + [part], RewriteFrom(s, r + 1, r + 1, k + 1, n))
  }

  /** The first scan counts conversions; it refuses a final lone `%` and mapping keys. */
  function Specifiers(s: string, i: nat): Option<nat>
    requires i <= |s|
    decreases |s| - i
  {
    var j := FindPercent(s, i);
    if j == |s| then Some(0)
    else if j + 1 == |s| || s[j + 1] == '(' then None
    else match Specifiers(s, j + 2)
      case None => None
      case Some(n) => Some(if s[j + 1] == '%' then n else n + 1)
  }

  /** The right side of the `%`: a tuple display of `n` values, or any other expression,
      which stands for a tuple of one and is supported for a single conversion only. */
  datatype Right = Display(n: nat) | Single

  function NumValues(right: Right): nat {
    match right
    case Display(n) => n
    case Single => 1
  }

  function Rewrite(s: string, right: Right): Option<seq<Part>> {
    match Specifiers(s, 0)
    case None => None
    case Some(n) =>
      if right.Single? && n != 1 then None else RewriteFrom(s, 0, 0, 0, NumValues(right))
  }

  // ----- the method -----

  method RunFirstScan(s: string) returns (specifiers: Option<nat>)
    ensures specifiers == Specifiers(s, 0)
  {
    var i, n := 0, 0;
    while i < |s|
      invariant i <= |s|
      invariant var more := Specifiers(s, i);
        Specifiers(s, 0) == if more.None? then None else Some(n + more.value)
    {
      i := FindPercent(s, i);
      if i == |s| {
        break;
      }
      i := i + 1;
      if i >= |s| {
        return None;
      }
      var ch := s[i];
      i := i + 1;
      if ch == '%' {
        continue;
      } else if ch == '(' {
        return None;
      }
      n := n + 1;
    }
    specifiers := Some(n);
  }

  /** The zeros and the width after a `%`: the next character and its index, or None
      at the end of the string. */
  method ScanSpec(s: string, p: nat) returns (ended: bool, r: nat, haveWidth: bool)
    requires p <= |s|
    ensures var q := SkipZeros(s, p);
      r == SkipDigits(s, q) && haveWidth == (r > q) && ended == (r == |s|)
  {
    r, haveWidth, ended := p, false, false;
    while r < |s| && s[r] == '0'
      invariant p <= r <= |s| && SkipZeros(s, r) == SkipZeros(s, p)
    {
      r := r + 1;
    }
    if r == |s| {
      return true, r, false;
    }
    if '1' <= s[r] <= '9' {
      haveWidth := true;
      ghost var q := r;
      r := r + 1;
      while r < |s| && '0' <= s[r] <= '9'
        invariant q < r <= |s| && SkipDigits(s, r) == SkipDigits(s, q)
      {
        r := r + 1;
      }
      ended := r == |s|;
    }
  }

  method RewriteStrMod(s: string, right: Right) returns (result: Option<seq<Part>>)
    ensures result == Rewrite(s, right)
  {
    hide RewriteFrom; hide Cons; hide ValuePart; hide Specifiers;
    hide SkipDigits; hide SkipZeros; hide FindPercent;
    var specifiers := RunFirstScan(s);
    if specifiers.None? {
      return None;
    }
    var numValues := 1;
    if right.Display? {
      numValues := right.n;
    } else if specifiers.value != 1 {
      return None;
    }
    var i, valueIdx, segmentBegin := 0, 0, 0;
    var strings: seq<Part> := [];
    ghost var all := RewriteFrom(s, 0, 0, 0, numValues);
    ConsAssoc([], [], all);
    while i < |s|
      invariant segmentBegin <= i <= |s|
      invariant Cons(strings, RewriteFrom(s, segmentBegin, i, valueIdx, numValues)) == all
      decreases |s| - i
    {
      RewriteCases(s, segmentBegin, i, valueIdx, numValues);
      ConsAssoc(strings, [], None);
      var j := FindPercent(s, i);
      if j == |s| {
        i := j;
        break;
      }
      ghost var before, segment := strings, TextPart(s[segmentBegin..j]);
      if j - segmentBegin > 0 {
        strings := strings + [Text(s[segmentBegin..j])];
      }
      assert strings == before + segment;
      var ended, r, haveWidth := ScanSpec(s, j + 1);
      if ended {
        return None;
      }
      if s[r] == '%' {
        ConsAssoc(before, segment, RewriteFrom(s, r, r + 1, valueIdx, numValues));
        segmentBegin, i := r, r + 1;
      } else {
        var part := ValuePart(valueIdx, s[r], s[j + 1..r], haveWidth);
        if valueIdx >= numValues || part.None? {
          return None;
        }
        ConsAssoc(before, segment + [part.value], RewriteFrom(s, r + 1, r + 1, valueIdx + 1, numValues));
        strings := strings + [part.value];
        assert strings == before + (segment + [part.value]);
        valueIdx := valueIdx + 1;
        segmentBegin, i := r + 1, r + 1;
      }
    }
    RewriteEnds(s, segmentBegin, valueIdx, numValues, strings);
    if valueIdx != numValues {
      return None;
    }
    assert strings + [] == strings;
    if |s| - segmentBegin > 0 {
      strings := strings + [Text(s[segmentBegin..])];
    }
    return Some(strings);
  }

  /** The cases of `RewriteFrom`, one by one. */
  lemma RewriteCases(s: string, begin: nat, i: nat, k: nat, n: nat)
    requires begin <= i <= |s|
    ensures var all, j := RewriteFrom(s, begin, i, k, n), FindPercent(s, i);
      if j == |s| then all == RewriteFrom(s, begin, |s|, k, n)
      else
        var p := j + 1;
        var q := SkipZeros(s, p);
        var r := SkipDigits(s, q);
        if r == |s| then all == None
        else if s[r] == '%' then all == Cons(TextPart(s[begin..j]), RewriteFrom(s, r, r + 1, k, n))
        else
          var part := ValuePart(k, s[r], s[p..r], r > q);
          if k >= n || part.None? then all == None
          else all == Cons(TextPart(s[begin..j]) + [part.value], RewriteFrom(s, r + 1, r + 1, k + 1, n))
  {
  }

  lemma RewriteEnds(s: string, begin: nat, k: nat, n: nat, strings: seq<Part>)
    requires begin <= |s|
    ensures Cons(strings, RewriteFrom(s, begin, |s|, k, n))
         == if k != n then None else Some(strings + TextPart(s[begin..]))
  {
  }

  lemma ConsAssoc(b: seq<Part>, a: seq<Part>, rest: Option<seq<Part>>)
    ensures Cons(b, Cons(a, rest)) == Cons(b + a, rest)
    ensures Cons([], rest) == rest && Cons(b, None) == None
  {
    if rest.Some? {
      assert b + (a + rest.value) == (b + a) + rest.value;
      assert [] + rest.value == rest.value;
    }
  }
}
