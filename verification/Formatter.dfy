/** `Formatter.format` as the source runs it: one pass over the format string that
    appends to a result, against the function `Printf.Format`. */
module Formatter {
  import opened Basics
  import opened Printf

  method ScanFlags(s: string, p: nat) returns (flags: Flags, r: nat)
    requires p <= |s|
    ensures (flags, r) == ParseFlags(s, p, NO_FLAGS)
  {
    flags, r := NO_FLAGS, p;
    while r < |s|
      invariant p <= r <= |s| && ParseFlags(s, r, flags) == ParseFlags(s, p, NO_FLAGS)
    {
      if s[r] == '-' {
        flags := flags.(ljust := true);
      } else if s[r] == '+' {
        flags := flags.(sign := "+");
      } else if s[r] == ' ' {
        if flags.sign != "+" {
          flags := flags.(sign := " ");
        }
      } else if s[r] == '#' {
        flags := flags.(alt := true);
      } else if s[r] == '0' {
        flags := flags.(zero := true);
      } else {
        break;
      }
      r := r + 1;
    }
  }

  lemma NumberGrows(s: string, p: nat, r: nat)
    requires p <= r < |s|
    ensures Number(s[p..r + 1]) == Number(s[p..r]) * 10 + DigitValue(s[r])
  {
    assert s[p..r + 1][..r - p] == s[p..r];
  }

  method ScanNumber(s: string, p: nat) returns (n: nat, r: nat)
    requires p < |s| && IsDigit(s[p])
    ensures r == SkipDigits(s, p) && n == Number(s[p..r])
  {
    n, r := 0, p;
    assert s[p..p] == "" && Number("") == 0;
    hide Number;
    while true
      invariant p <= r < |s| && IsDigit(s[r]) && SkipDigits(s, r) == SkipDigits(s, p)
      invariant n == Number(s[p..r]) * 10
      decreases |s| - r
    {
      NumberGrows(s, p, r);
      n := n + (s[r] - '0') as nat;
      r := r + 1;
      if r == |s| || !IsDigit(s[r]) {
        return;
      }
      n := n * 10;
    }
  }

  method AppendString(result: string, d: Directive, text: string) returns (r: string)
    ensures r == result + FormatText(d, text)
  {
    var fragment := text;
    if d.precision >= 0 {
      fragment := if d.precision < |fragment| then fragment[..d.precision] else fragment;
    }
    if d.width <= 0 {
      return result + fragment;
    }
    var padding := d.width - |fragment|;
    r := result;
    if padding > 0 && !d.flags.ljust {
      r := r + Repeat(' ', padding);
      padding := 0;
    }
    r := r + fragment;
    if padding > 0 {
      r := r + Repeat(' ', padding);
    }
  }

  /** A formatted number, laid out from left to right. */
  lemma Layout(d: Directive, sign: string, prefix: string, digits: string, zeros: int, padding: int)
    requires d.width > 0 || d.precision >= 0
    requires
      var z := if d.precision >= 0 then d.precision - |digits| else 0;
      var p := d.width - |digits| - |sign| - |prefix| - if z > 0 then z else 0;
      if d.flags.zero && !d.flags.ljust then zeros == (if p > 0 then z + p else z) && padding == 0
      else zeros == z && padding == p
    ensures FormatNumber(d, sign, prefix, digits)
         == Spaces(padding, !d.flags.ljust) + (sign + prefix + Repeat('0', zeros) + digits)
            + Spaces(padding, d.flags.ljust)
  {
    hide Repeat; hide Spaces;
    var body := sign + prefix + Repeat('0', zeros) + digits;
    Around(body, padding, d.flags.ljust);
    if d.flags.ljust {
    } else if d.flags.zero {
      assert FormatNumber(d, sign, prefix, digits) == body;
    } else {
      SpacesFirst(Repeat(' ', padding), sign, prefix, Repeat('0', zeros), digits);
    }
  }

  lemma Around(body: string, padding: int, ljust: bool)
    ensures Spaces(padding, !ljust) + body + Spaces(padding, ljust)
         == if ljust then body + Repeat(' ', padding) else Repeat(' ', padding) + body
    ensures Repeat(' ', 0) + body == body
  {
    assert "" + body == body && Repeat(' ', padding) + body + "" == Repeat(' ', padding) + body;
  }

  lemma SpacesFirst(spaces: string, sign: string, prefix: string, zeros: string, digits: string)
    ensures spaces + sign + prefix + zeros + digits == spaces + (sign + prefix + zeros + digits)
  {
  }

  function Spaces(n: int, here: bool): string {
    if here then Repeat(' ', n) else ""
  }

  /** The zeros that are meant to fill the width make up first for what the precision
      falls short of the digits. */
  predicate ZerosFallShort(d: Directive, sign: string, prefix: string, digits: string) {
    && d.flags.zero && !d.flags.ljust
    && 0 <= d.precision < |digits| && |sign| + |prefix| + |digits| < d.width
  }

  /** `_format_number` gives a text as wide as its width asks, unless a `0` flag comes with a
      precision below the number of digits. */
  lemma NumberMeetsWidth(d: Directive, sign: string, prefix: string, digits: string)
    ensures |FormatNumber(d, sign, prefix, digits)| >= d.width <==> !ZerosFallShort(d, sign, prefix, digits)
  {
  }

  /** The conversions whose text is narrower than their width asks: with a `0` flag that is
      not overruled by `-`, a float that needs any padding at all, and an integer that needs
      padding and has a precision below the number of its digits. */
  predicate Narrow(d: Directive, v: Value) {
    && d.flags.zero && !d.flags.ljust
    && if IsFloatType(d.conv) then
         v.float.Some? && FloatText(d, v.float.value) != ""
         && |FloatSign(d, v.float.value)| + |FloatText(d, v.float.value)| < d.width
       else
         var conv := if d.conv == 'i' || d.conv == 'u' then 'd' else d.conv;
         IsIntType(conv) && IntFor(v, conv).Some?
         && (var n := IntFor(v, conv).value;
             var digits := |Magnitude(n, conv)|;
             && 0 <= d.precision < digits
             && |if n < 0 then "-" else d.flags.sign| + |Prefix(d.(conv := conv))| + digits < d.width)
  }

  function FloatSign(d: Directive, f: Real): string {
    if f.negative then "-" else d.flags.sign
  }

  function FloatText(d: Directive, f: Real): string {
    f.text(d.conv, if d.precision < 0 then 6 else d.precision, d.flags.alt)
  }

  /** A conversion gives a text as wide as its width asks, unless it is one of those. */
  lemma ConversionMeetsWidth(d: Directive, v: Value)
    requires Convert(d, v).Some?
    ensures |Convert(d, v).value| >= d.width <==> !Narrow(d, v)
  {
    hide FormatNumber; hide FormatText; hide Magnitude; hide Prefix; hide FloatSign; hide FloatText;
    if IsTextType(d.conv) {
      TextMeetsWidth(d, v);
    } else if IsFloatType(d.conv) {
      FloatConverts(d, v);
      FloatMeetsWidth(d, v.float.value);
    } else {
      var conv := if d.conv == 'i' || d.conv == 'u' then 'd' else d.conv;
      if IsIntType(conv) { IntMeetsWidth(d, conv, IntFor(v, conv).value); }
    }
  }

  predicate IsTextType(c: char) {
    c == 's' || c == 'r' || c == 'a' || c == 'c'
  }

  lemma TextMeetsWidth(d: Directive, v: Value)
    requires IsTextType(d.conv) && Convert(d, v).Some?
    ensures |Convert(d, v).value| >= d.width
  {
  }

  lemma FloatMeetsWidth(d: Directive, f: Real)
    ensures var text := FormatNumber(d.(precision := 0), FloatSign(d, f), "", FloatText(d, f));
      |text| >= d.width <==>
      !(d.flags.zero && !d.flags.ljust && FloatText(d, f) != "" && |FloatSign(d, f)| + |FloatText(d, f)| < d.width)
  {
    hide FormatNumber; hide FloatSign; hide FloatText;
    NumberMeetsWidth(d.(precision := 0), FloatSign(d, f), "", FloatText(d, f));
  }

  lemma IntMeetsWidth(d: Directive, conv: char, n: int)
    requires IsIntType(conv)
    ensures var sign, prefix := if n < 0 then "-" else d.flags.sign, Prefix(d.(conv := conv));
      |FormatNumber(d, sign, prefix, Magnitude(n, conv))| >= d.width <==>
      !(d.flags.zero && !d.flags.ljust && 0 <= d.precision < |Magnitude(n, conv)|
        && |sign| + |prefix| + |Magnitude(n, conv)| < d.width)
  {
    hide FormatNumber; hide Magnitude; hide Prefix;
    NumberMeetsWidth(d, if n < 0 then "-" else d.flags.sign, Prefix(d.(conv := conv)), Magnitude(n, conv));
  }

  /** How wide a float with a `0` flag comes out: the text takes its room twice. */
  lemma ZeroFilledFloat(d: Directive, v: Value)
    requires IsFloatType(d.conv) && v.float.Some? && d.flags.zero && !d.flags.ljust
    ensures var sign, text := |FloatSign(d, v.float.value)|, |FloatText(d, v.float.value)|;
      |Convert(d, v).value| == if sign + 2 * text < d.width then d.width - text else sign + text
  {
    hide FloatSign; hide FloatText;
    var f := v.float.value;
    assert Convert(d, v) == Some(FormatNumber(d.(precision := 0), FloatSign(d, f), "", FloatText(d, f))) by {
      FloatConverts(d, v);
    }
  }

  lemma FloatConverts(d: Directive, v: Value)
    requires IsFloatType(d.conv) && v.float.Some?
    ensures var f := v.float.value;
      Convert(d, v) == Some(FormatNumber(d.(precision := 0), FloatSign(d, f), "", FloatText(d, f)))
  {
  }

  /** `"%05.0d" % (123,)` is "123". */
  lemma ZerosFallShortOfWidth(next: nat, arg: nat)
    ensures var d := Directive(Flags(false, true, "", false), 5, 0, 'd', next, arg);
      FormatNumber(d, "", "", "123") == "123"
  {
    assert "" + "" + "" + "123" == "123";
  }

  /** `"%010f" % (3.14,)` is "3.140000", without any precision, and `"%010.9g" % (3.14,)` is
      "003.14", with a precision above the number of digits. */
  lemma ZeroFlagNeverFillsFloat(v: Value, next: nat, arg: nat)
    requires v.float.Some? && !v.float.value.negative
    requires v.float.value.text('f', 6, false) == "3.140000" && v.float.value.text('g', 9, false) == "3.14"
    ensures Convert(Directive(Flags(false, true, "", false), 10, -1, 'f', next, arg), v) == Some("3.140000")
    ensures Convert(Directive(Flags(false, true, "", false), 10, 9, 'g', next, arg), v) == Some("003.14")
  {
    assert "" + "" + "" + "3.140000" == "3.140000";
    assert Repeat('0', 2) == "00" && "" + "" + "00" + "3.14" == "003.14";
  }

  method AppendPadded(result: string, ljust: bool, padding: int, sign: string, prefix: string, zeros: int,
                      digits: string)
    returns (r: string)
    ensures r == result
              + (Spaces(padding, !ljust) + (sign + prefix + Repeat('0', zeros) + digits) + Spaces(padding, ljust))
  {
    hide Repeat;
    NoRepeat(padding);
    NoRepeat(zeros);
    r := result;
    if padding > 0 && !ljust {
      r := r + Repeat(' ', padding);
    }
    assert r == result + Spaces(padding, !ljust);
    ghost var before := r;
    r := r + sign + prefix;
    if zeros > 0 {
      r := r + Repeat('0', zeros);
    }
    r := r + digits;
    assert r == before + (sign + prefix + Repeat('0', zeros) + digits);
    if padding > 0 && ljust {
      r := r + Repeat(' ', padding);
    }
  }

  method AppendNumber(result: string, d: Directive, sign: string, prefix: string, digits: string)
    returns (r: string)
    ensures r == result + FormatNumber(d, sign, prefix, digits)
  {
    if d.width <= 0 && d.precision < 0 {
      return result + (sign + prefix + digits);
    }
    var padding := d.width - |digits| - |sign| - |prefix|;
    var zeros := 0;
    if d.precision >= 0 {
      zeros := d.precision - |digits|;
      if zeros > 0 {
        padding := padding - zeros;
      }
    }
    if d.flags.zero && !d.flags.ljust {
      if padding > 0 {
        zeros := zeros + padding;
      }
      padding := 0;
    }
    Layout(d, sign, prefix, digits, zeros, padding);
    hide FormatNumber;
    r := AppendPadded(result, d.flags.ljust, padding, sign, prefix, zeros, digits);
  }

  lemma NoRepeat(n: int)
    ensures n <= 0 ==> Repeat(' ', n) == "" && Repeat('0', n) == ""
  {
  }

  /** A width or precision, from digits or from the next argument. */
  method ScanField(s: string, i: nat, args: seq<Value>, argIdx: nat) returns (f: Option<(int, nat, nat)>)
    requires i <= |s|
    ensures f == ParseField(s, i, args, argIdx)
  {
    if i < |s| && s[i] == '*' {
      if argIdx >= |args| || args[argIdx].whole.None? {
        return None;
      }
      return Some((args[argIdx].whole.value, i + 1, argIdx + 1));
    }
    var n: int, next := -1, i;
    if i < |s| && IsDigit(s[i]) {
      n, next := ScanNumber(s, i);
    }
    f := Some((n, next, argIdx));
  }

  /** Flags, width, precision and conversion. */
  method ScanDirective(s: string, p: nat, args: seq<Value>, argIdx: nat) returns (d: Option<Directive>)
    requires p <= |s|
    ensures d == ParseDirective(s, p, args, argIdx)
  {
    hide ParseField; hide ParseFlags;
    var flags, i := ScanFlags(s, p);
    var field := ScanField(s, i, args, argIdx);
    if field.None? {
      return None;
    }
    var (width, next, k) := field.value;
    if i < |s| && s[i] == '*' && width < 0 {
      flags := flags.(ljust := true);
      width := -width;
    }
    if next == |s| {
      return None;
    }
    if s[next] != '.' {
      return Some(Directive(flags, width, -1, s[next], next + 1, k));
    }
    field := ScanField(s, next + 1, args, k);
    if field.None? || field.value.1 == |s| {
      return None;
    }
    var precision := if field.value.0 < 0 then 0 else field.value.0;
    next, k := field.value.1, field.value.2;
    d := Some(Directive(flags, width, precision, s[next], next + 1, k));
  }

  method AppendConverted(result: string, d: Directive, v: Value) returns (r: Option<string>)
    ensures r == Prepend(result, Convert(d, v))
  {
    hide FormatText; hide FormatNumber; hide Magnitude;
    if d.conv == 's' || d.conv == 'r' || d.conv == 'a' {
      var t := AppendString(result, d, if d.conv == 's' then v.str else if d.conv == 'r' then v.repr else v.ascii);
      return Some(t);
    }
    if d.conv == 'c' {
      if v.single.None? {
        return None;
      }
      var t := AppendString(result, d, v.single.value);
      return Some(t);
    }
    if IsFloatType(d.conv) {
      if v.float.None? {
        return None;
      }
      var f := v.float.value;
      var text := f.text(d.conv, if d.precision < 0 then 6 else d.precision, d.flags.alt);
      var t := AppendNumber(result, d.(precision := 0), if f.negative then "-" else d.flags.sign, "", text);
      return Some(t);
    }
    var conv := if d.conv == 'i' || d.conv == 'u' then 'd' else d.conv;
    var n := IntFor(v, conv);
    if !IsIntType(conv) || n.None? {
      return None;
    }
    var sign := if n.value < 0 then "-" else d.flags.sign;
    var t := AppendNumber(result, d, sign, Prefix(d.(conv := conv)), Magnitude(n.value, conv));
    return Some(t);
  }

  /** The cases of `FormatFrom`, with the result so far in front. */
  lemma FormatCases(result: string, s: string, begin: nat, args: seq<Value>, k: nat, dict: Option<Mapping>)
    requires begin <= |s|
    ensures var all, j := Prepend(result, FormatFrom(s, begin, args, k, dict)), FindPercent(s, begin);
      if j == |s| then all == if k < |args| && dict.None? then None else Some(result + s[begin..])
      else if j + 1 == |s| then all == None
      else if s[j + 1] == '%' then
        all == Prepend(result + s[begin..j] + "%", FormatFrom(s, j + 2, args, k, dict))
      else
        var named := Named(s, j + 1, args, k, dict);
        if named.None? then all == None
        else
          var (vs, n, p) := named.value;
          var d := ParseDirective(s, p, vs, n);
          if d.None? || d.value.arg >= |vs| || Convert(d.value, vs[d.value.arg]).None? then all == None
          else all == Prepend(result + s[begin..j] + Convert(d.value, vs[d.value.arg]).value,
                              FormatFrom(s, d.value.next, vs, d.value.arg + 1, dict))
  {
    hide ParseDirective; hide Convert; hide Named; hide Prepend; hide FindPercent;
    var j := FindPercent(s, begin);
    NothingAfter(result, s[begin..]);
    if j + 1 < |s| {
      if s[j + 1] == '%' {
        Assoc(result, s[begin..j], "%", FormatFrom(s, j + 2, args, k, dict));
      } else if Named(s, j + 1, args, k, dict).Some? {
        var (vs, n, p) := Named(s, j + 1, args, k, dict).value;
        var d := ParseDirective(s, p, vs, n);
        if d.Some? && d.value.arg < |vs| && Convert(d.value, vs[d.value.arg]).Some? {
          var a := d.value.arg;
          Assoc(result, s[begin..j], Convert(d.value, vs[a]).value, FormatFrom(s, d.value.next, vs, a + 1, dict));
        }
      }
    }
  }

  lemma NothingAfter(a: string, t: string)
    ensures Prepend(a, None) == None && Prepend(a, Some(t)) == Some(a + t)
  {
  }

  lemma Assoc(a: string, b: string, c: string, rest: Option<string>)
    ensures Prepend(a, Prepend(b + c, rest)) == Prepend(a + b + c, rest)
  {
    if rest.Some? { assert a + (b + c + rest.value) == a + b + c + rest.value; }
  }

  /** The key after a `(`, up to the parenthesis that closes it. */
  method ScanKey(s: string, begin: nat) returns (end: Option<nat>)
    requires begin <= |s|
    ensures end == KeyEnd(s, begin, 1)
  {
    var i, depth := begin, 1;
    while i < |s|
      invariant begin <= i <= |s| && depth > 0 && KeyEnd(s, i, depth) == KeyEnd(s, begin, 1)
    {
      if s[i] == ')' {
        depth := depth - 1;
        if depth == 0 {
          return Some(i);
        }
      } else if s[i] == '(' {
        depth := depth + 1;
      }
      i := i + 1;
    }
    end := None;
  }

  /** A named reference takes its value from the mapping, as the only argument. */
  method ScanName(s: string, p: nat, args: seq<Value>, argIdx: nat, dict: Option<Mapping>)
    returns (named: Option<(seq<Value>, nat, nat)>)
    requires p < |s|
    ensures named == Named(s, p, args, argIdx, dict)
  {
    if s[p] != '(' {
      return Some((args, argIdx, p));
    }
    if dict.None? {
      return None;
    }
    var end := ScanKey(s, p + 1);
    if end.None? {
      return None;
    }
    var value := dict.value(s[p + 1..end.value]);
    named := if value.None? then None else Some(([value.value], 0, end.value + 1));
  }

  method Format(s: string, args: seq<Value>, dict: Option<Mapping>) returns (out: Option<string>)
    ensures out == Printf.Format(s, args, dict)
  {
    hide FormatFrom; hide Convert; hide ParseDirective; hide FindPercent; hide Named;
    var result, argsTuple, argIdx, begin := "", args, 0, 0;
    ghost var all := FormatFrom(s, 0, args, 0, dict);
    assert all.Some? ==> "" + all.value == all.value;
    while true
      invariant begin <= |s|
      invariant Prepend(result, FormatFrom(s, begin, argsTuple, argIdx, dict)) == all
      decreases |s| - begin
    {
      FormatCases(result, s, begin, argsTuple, argIdx, dict);
      var idx := FindPercent(s, begin);
      if idx == |s| {
        break;
      }
      result := result + s[begin..idx];
      idx := idx + 1;
      if idx == |s| {
        return None;
      }
      if s[idx] == '%' {
        result := result + "%";
        begin := idx + 1;
        continue;
      }
      var named := ScanName(s, idx, argsTuple, argIdx, dict);
      if named.None? {
        return None;
      }
      argsTuple, argIdx, idx := named.value.0, named.value.1, named.value.2;
      var d := ScanDirective(s, idx, argsTuple, argIdx);
      if d.None? || d.value.arg >= |argsTuple| {
        return None;
      }
      argIdx := d.value.arg;
      var appended := AppendConverted(result, d.value, argsTuple[argIdx]);
      if appended.None? {
        return None;
      }
      result, argIdx, begin := appended.value, argIdx + 1, d.value.next;
    }
    result := result + s[begin..];
    if argIdx < |argsTuple| && dict.None? {
      return None;
    }
    return Some(result);
  }
}
