/** The f-string that the printf rewrite produces means what the format meant. */
module PrintfMeaning {
  import opened Basics
  import opened Printf
  import opened PrintfRewrite

  function TextOf(v: Value, conv: char): string {
    if conv == 's' then v.str else if conv == 'r' then v.repr else v.ascii
  }

  /** The value of one part of an f-string. */
  function EvalPart(p: Part, args: seq<Value>): Option<string> {
    match p
    case Text(t) => Some(t)
    case StrValue(a, conv, spec) => if a < |args| then FormatStr(TextOf(args[a], conv), spec) else None
    case IntValue(a, index, spec) =>
      if a >= |args| then None
      else
        var n := if index then args[a].index else args[a].num;
        if n.None? then None else FormatInt(n.value, spec)
  }

  function Eval(parts: seq<Part>, args: seq<Value>): Option<string> {
    if parts == [] then Some("")
    else match EvalPart(parts[0], args)
      case None => None
      case Some(t) => Prepend(t, Eval(parts[1..], args))
  }

  predicate IsTextConv(c: char) {
    c == 's' || c == 'r' || c == 'a'
  }

  predicate IsIntConv(c: char) {
    c == 'd' || c == 'i' || c == 'u' || c == 'x' || c == 'X' || c == 'o'
  }

  /** A text conversion has no `0` flag, or a width that its text already fills. */
  predicate FairText(zeroFlag: bool, haveWidth: bool, width: nat, text: string) {
    zeroFlag ==> haveWidth && |text| >= width
  }

  /** From position `i` on, every `%%` is written with nothing in between, and every
      text conversion is fair. */
  predicate Fair(s: string, i: nat, args: seq<Value>, k: nat)
    requires i <= |s|
    decreases |s| - i
  {
    var j := FindPercent(s, i);
    j == |s| ||
    (var p := j + 1;
     var q := SkipZeros(s, p);
     var r := SkipDigits(s, q);
     && r < |s|
     && if s[r] == '%' then r == p && Fair(s, r + 1, args, k)
        else
          && k < |args|
          && (IsTextConv(s[r]) ==> FairText(q > p, r > q, Number(s[q..r]), TextOf(args[k], s[r])))
          && Fair(s, r + 1, args, k + 1))
  }

  /** From position `i` on, every integer conversion gets an integer. */
  predicate IntsForInts(s: string, i: nat, args: seq<Value>, k: nat)
    requires i <= |s|
    decreases |s| - i
  {
    var j := FindPercent(s, i);
    j == |s| ||
    (var q := SkipZeros(s, j + 1);
     var r := SkipDigits(s, q);
     && r < |s|
     && if s[r] == '%' then IntsForInts(s, r + 1, args, k)
        else
          && k < |args|
          && (IsIntConv(s[r]) ==> IntFor(args[k], s[r]).Some?)
          && IntsForInts(s, r + 1, args, k + 1))
  }

  /** From `i` on, the first `%` is at `j`, its zeros end at `q` and its width at `r`. */
  predicate Cut(s: string, i: nat, j: nat, q: nat, r: nat) {
    i <= |s| && j == FindPercent(s, i) < |s| && q == SkipZeros(s, j + 1) && r == SkipDigits(s, q) < |s|
  }

  // ----- reading a directive -----

  lemma {:induction false} ZerosAreFlags(s: string, i: nat, f: Flags)
    requires i <= |s| && (SkipZeros(s, i) < |s| ==> !IsFlag(s[SkipZeros(s, i)]))
    ensures ParseFlags(s, i, f) == (if SkipZeros(s, i) > i then f.(zero := true) else f, SkipZeros(s, i))
    decreases |s| - i
  {
    if i < |s| && s[i] == '0' { ZerosAreFlags(s, i + 1, f.(zero := true)); }
  }

  /** The directive both sides see between positions `p` and `r`. */
  function Seen(s: string, p: nat, q: nat, r: nat, k: nat): Directive
    requires p <= q <= r < |s|
  {
    Directive(Flags(false, q > p, "", false), if r == q then -1 else Number(s[q..r]), -1, s[r], r + 1, k)
  }

  predicate IsConversion(c: char) {
    !IsFlag(c) && c != '.' && c != '*'
  }

  lemma DirectiveSeen(s: string, p: nat, args: seq<Value>, k: nat)
    requires p <= |s|
    ensures var q := SkipZeros(s, p);
      var r := SkipDigits(s, q);
      r < |s| && IsConversion(s[r]) ==> ParseDirective(s, p, args, k) == Some(Seen(s, p, q, r, k))
  {
    var q := SkipZeros(s, p);
    var r := SkipDigits(s, q);
    if r < |s| && IsConversion(s[r]) {
      assert q < |s| && !IsFlag(s[q]);
      ZerosAreFlags(s, p, NO_FLAGS);
    }
  }

  lemma {:induction false} LeadingZeros(z: string, n: nat)
    requires n <= |z| && (forall i :: 0 <= i < n ==> z[i] == '0') && forall i :: 0 <= i < |z| ==> IsDigit(z[i])
    ensures Number(z) == Number(z[n..])
    decreases |z|
  {
    if n == |z| {
      if n > 0 { LeadingZeros(z[..n - 1], n - 1); }
    } else {
      var m := |z| - 1;
      assert z[..m][n..] == z[n..][..m - n];
      LeadingZeros(z[..m], n);
    }
  }

  lemma {:induction false} AllDigits(t: string, n: nat, i: nat)
    requires i <= n <= |t| && (forall k :: i <= k < n ==> IsDigit(t[k])) && (n < |t| ==> !IsDigit(t[n]))
    ensures SkipDigits(t, i) == n
    decreases n - i
  {
    if i < n { AllDigits(t, n, i + 1); }
  }

  // ----- one conversion -----

  /** Zeros and width of a specifier, as both sides read them. */
  ghost predicate SpecText(z: string, zeros: nat, width: int) {
    && zeros <= |z| && (forall i :: 0 <= i < |z| ==> IsDigit(z[i]))
    && (forall i :: 0 <= i < zeros ==> z[i] == '0')
    && (zeros < |z| ==> z[zeros] != '0')
    && width == if zeros == |z| then -1 else Number(z[zeros..])
  }

  lemma ParseTextSpec(z: string, zeros: nat, width: int)
    requires SpecText(z, zeros, width) && zeros < |z|
    ensures ParseSpec(">" + z, 's', '<') == Some(Spec(if zeros > 0 then '0' else ' ', '>', width, 's'))
  {
    var t := ">" + z;
    assert t[1] == z[0] && t[1..] == z;
    AllDigits(z, |z|, 0);
    LeadingZeros(z, zeros);
    assert z[..|z|] == z;
  }

  lemma ParseZerosSpec(z: string)
    requires z != "" && forall i :: 0 <= i < |z| ==> z[i] == '0'
    ensures FormatStr("", z) == None
    ensures forall t :: FormatStr(t, z) == None
  {
    AllDigits(z, |z|, 0);
  }

  /** The kind is the conversion, or absent for decimal. */
  lemma ParseIntSpec(z: string, zeros: nat, width: int, kind: string)
    requires SpecText(z, zeros, width) && |kind| <= 1 && z + kind != ""
    requires kind != "" ==> !IsDigit(kind[0]) && !IsAlign(kind[0])
    ensures ParseSpec(z + kind, 'd', '>') == Some(Spec(
              if zeros > 0 then '0' else ' ', if zeros > 0 then '=' else '>',
              if z == "" then -1 else if zeros == |z| then 0 else width,
              if kind == "" then 'd' else kind[0]))
  {
    var t := z + kind;
    AllDigits(t, |z|, 0);
    LeadingZeros(z, zeros);
    assert t[..|z|] == z;
  }

  /** A text conversion: the f-string raises for a `0` flag without width, and
      otherwise both sides give equally long texts, the same exactly when fair. */
  lemma TextConversion(z: string, zeros: nat, width: int, d: Directive, text: string)
    requires SpecText(z, zeros, width)
    requires d.flags == Flags(false, zeros > 0, "", false) && d.width == width && d.precision == -1
    ensures var r := FormatStr(text, if zeros < |z| then ">" + z else z);
      var fair := FairText(zeros > 0, zeros < |z|, if width < 0 then 0 else width, text);
      && (r.None? ==> !fair)
      && (r.Some? ==> |r.value| == |FormatText(d, text)| && (r.value == FormatText(d, text) <==> fair))
  {
    if zeros < |z| {
      ParseTextSpec(z, zeros, width);
      var n := width - |text|;
      if zeros > 0 && n > 0 {
        assert (Repeat('0', n) + text)[0] == '0' && (Repeat(' ', n) + text)[0] == ' ';
      }
      assert "" + text == text && Repeat('0', n) + "" == Repeat('0', n) && Repeat(' ', n) + "" == Repeat(' ', n);
    } else if zeros > 0 {
      ParseZerosSpec(z);
    }
  }

  /** Without `-`, `#` and precision, a number is padded like `{n:>width}` or, with a
      `0` flag, like `{n:0=width}`. */
  lemma NumberIsPadded(d: Directive, sign: string, digits: string)
    requires !d.flags.ljust && d.precision == -1
    ensures FormatNumber(d, sign, "", digits)
         == Pad(sign, digits, if d.flags.zero then '0' else ' ', if d.flags.zero then '=' else '>', d.width)
  {
    var n := d.width - |digits| - |sign|;
    assert sign + "" + Repeat('0', n) + digits == sign + Repeat('0', n) + digits;
    assert sign + "" + Repeat('0', 0) + digits == sign + digits == sign + "" + digits;
    assert Repeat(' ', n) + sign + "" + Repeat('0', 0) + digits == Repeat(' ', n) + sign + digits;
    if n <= 0 { assert Repeat(' ', n) == "" && "" + sign + digits == sign + digits; }
  }

  /** An integer conversion: both sides give the same text. */
  lemma IntConversion(z: string, zeros: nat, width: int, d: Directive, v: Value)
    requires SpecText(z, zeros, width) && IsIntConv(d.conv) && IntFor(v, d.conv).Some?
    requires d.flags == Flags(false, zeros > 0, "", false) && d.width == width && d.precision == -1
    ensures FormatInt(IntFor(v, d.conv).value, if d.conv in {'x', 'X', 'o'} then z + [d.conv] else z) == Convert(d, v)
  {
    hide FormatNumber; hide Magnitude; hide ParseSpec; hide Pad;
    var kind := if d.conv in {'x', 'X', 'o'} then [d.conv] else "";
    assert z + kind == if d.conv in {'x', 'X', 'o'} then z + [d.conv] else z;
    var conv := if kind == "" then 'd' else d.conv;
    var sign, digits := Sign(IntFor(v, d.conv).value), Magnitude(IntFor(v, d.conv).value, conv);
    NumberIsPadded(d, sign, digits);
    NoWidthNoPadding(sign, digits, if zeros > 0 then '0' else ' ', if zeros > 0 then '=' else '>');
    if z + kind != "" { ParseIntSpec(z, zeros, width, kind); }
  }

  lemma NoWidthNoPadding(sign: string, digits: string, fill: char, align: char)
    ensures Pad(sign, digits, fill, align, -1) == sign + digits == Pad(sign, digits, fill, align, 0)
  {
  }

  // ----- the whole format -----

  lemma SpecTextSeen(s: string, p: nat, k: nat)
    requires p <= |s|
    ensures var q := SkipZeros(s, p);
      var r := SkipDigits(s, q);
      r < |s| ==> SpecText(s[p..r], q - p, Seen(s, p, q, r, k).width)
  {
    var q := SkipZeros(s, p);
    var r := SkipDigits(s, q);
    if r < |s| {
      assert s[p..r][q - p..] == s[q..r];
      assert forall i :: 0 <= i < |s[p..r]| ==> s[p..r][i] == s[p + i];
    }
  }

  /** One part of the f-string against one conversion of the formatter. */
  ghost predicate PartAgrees(e: Option<string>, d: Directive, zeroFlag: bool, haveWidth: bool, v: Value) {
    if IsIntConv(d.conv) then e == Convert(d, v) && e.Some? == IntFor(v, d.conv).Some?
    else
      var c := Convert(d, v);
      var fair := FairText(zeroFlag, haveWidth, if d.width < 0 then 0 else d.width, TextOf(v, d.conv));
      && IsTextConv(d.conv) && c.Some? && (e.None? ==> !fair)
      && (e.Some? ==> |e.value| == |c.value| && (e == c <==> fair))
  }

  lemma IntPart(z: string, zeros: nat, d: Directive, part: Part, args: seq<Value>, k: nat)
    requires k < |args| && SpecText(z, zeros, d.width) && IsIntConv(d.conv)
    requires d.flags == Flags(false, zeros > 0, "", false) && d.precision == -1
    requires ValuePart(k, d.conv, z, zeros < |z|) == Some(part)
    ensures PartAgrees(EvalPart(part, args), d, zeros > 0, zeros < |z|, args[k])
  {
    hide FormatInt; hide FormatNumber; hide Magnitude; hide FormatStr; hide SpecText;
    if IntFor(args[k], d.conv).Some? { IntConversion(z, zeros, d.width, d, args[k]); }
  }

  lemma TextPartAgrees(z: string, zeros: nat, d: Directive, part: Part, args: seq<Value>, k: nat)
    requires k < |args| && SpecText(z, zeros, d.width) && IsTextConv(d.conv)
    requires d.flags == Flags(false, zeros > 0, "", false) && d.precision == -1
    requires ValuePart(k, d.conv, z, zeros < |z|) == Some(part)
    ensures PartAgrees(EvalPart(part, args), d, zeros > 0, zeros < |z|, args[k])
  {
    hide FormatInt; hide FormatText; hide FormatStr; hide SpecText; hide FairText;
    TextConversion(z, zeros, d.width, d, TextOf(args[k], d.conv));
  }

  lemma SeenFields(s: string, p: nat, q: nat, r: nat, k: nat)
    requires p <= q <= r < |s|
    ensures var d := Seen(s, p, q, r, k);
      d.flags == Flags(false, q > p, "", false) && d.precision == -1 && d.conv == s[r]
  {
  }

  lemma ValueConversion(k: nat, ch: char, spec: string, haveWidth: bool)
    ensures ValuePart(k, ch, spec, haveWidth).Some? ==> IsTextConv(ch) || IsIntConv(ch)
  {
  }

  lemma PartAgainstConvert(s: string, p: nat, q: nat, r: nat, part: Part, args: seq<Value>, k: nat)
    requires p <= q <= r < |s| && q == SkipZeros(s, p) && r == SkipDigits(s, q) && k < |args|
    requires ValuePart(k, s[r], s[p..r], r > q) == Some(part)
    ensures PartAgrees(EvalPart(part, args), Seen(s, p, q, r, k), q > p, r > q, args[k])
  {
    hide *;
    var d := Seen(s, p, q, r, k);
    SeenFields(s, p, q, r, k);
    SpecTextSeen(s, p, k);
    ValueConversion(k, s[r], s[p..r], r > q);
    if IsIntConv(s[r]) {
      IntPart(s[p..r], q - p, d, part, args, k);
    } else {
      TextPartAgrees(s[p..r], q - p, d, part, args, k);
    }
  }

  lemma EvalText(t: string, rest: seq<Part>, args: seq<Value>)
    ensures Eval(TextPart(t) + rest, args) == Prepend(t, Eval(rest, args))
  {
    assert (TextPart(t) + rest)[|TextPart(t)|..] == rest;
    assert Eval(rest, args).Some? ==> "" + Eval(rest, args).value == Eval(rest, args).value;
  }

  lemma EvalTextPart(t: string, part: Part, rest: seq<Part>, args: seq<Value>)
    ensures Eval(TextPart(t) + [part] + rest, args)
         == if EvalPart(part, args).None? then None
            else Prepend(t + EvalPart(part, args).value, Eval(rest, args))
  {
    assert TextPart(t) + [part] + rest == TextPart(t) + ([part] + rest);
    EvalText(t, [part] + rest, args);
    assert ([part] + rest)[1..] == rest;
    var e, r := EvalPart(part, args), Eval(rest, args);
    if e.Some? && r.Some? { assert t + (e.value + r.value) == t + e.value + r.value; }
  }

  /** Texts that agree agree piece by piece, if the pieces are equally long. */
  lemma SameLengthCancels(a: string, x: string, b: string, y: string)
    requires |a| == |b| && a + x == b + y
    ensures a == b && x == y
  {
    assert a == (a + x)[..|a|] == (b + y)[..|a|] == b;
    assert x == (a + x)[|a|..] == (b + y)[|a|..] == y;
  }

  /** What the parts from `begin` on should give. */
  function Wanted(s: string, begin: nat, i: nat, args: seq<Value>, k: nat, dict: Option<Mapping>): Option<string>
    requires begin <= i <= |s|
  {
    Prepend(s[begin..i], FormatFrom(s, i, args, k, dict))
  }

  lemma NoPercentConversion(d: Directive, v: Value)
    requires d.conv == '%'
    ensures Convert(d, v) == None
  {
  }

  /** What follows the `%` of a conversion. */
  lemma AfterCut(s: string, i: nat, j: nat, q: nat, r: nat, args: seq<Value>, k: nat)
    requires Cut(s, i, j, q, r) && IsConversion(s[r])
    ensures i <= j < q <= r && ParseDirective(s, j + 1, args, k) == Some(Seen(s, j + 1, q, r, k))
    ensures r > j + 1 ==> IsDigit(s[j + 1])
  {
    DirectiveSeen(s, j + 1, args, k);
  }

  /** The formatter at a directive without a name. */
  lemma FormatAtDirective(s: string, i: nat, j: nat, args: seq<Value>, k: nat, dict: Option<Mapping>, d: Directive)
    requires i <= |s| && j == FindPercent(s, i) && j + 1 < |s| && s[j + 1] != '%' && s[j + 1] != '('
    requires ParseDirective(s, j + 1, args, k) == Some(d)
    ensures d.next <= |s|
    ensures var c := if d.arg < |args| then Convert(d, args[d.arg]) else None;
      FormatFrom(s, i, args, k, dict)
      == if c.None? then None else Prepend(s[i..j] + c.value, FormatFrom(s, d.next, args, d.arg + 1, dict))
  {
    hide Convert; hide ParseDirective; hide FindPercent;
  }

  lemma FormatAtDouble(s: string, i: nat, j: nat, args: seq<Value>, k: nat, dict: Option<Mapping>)
    requires i <= |s| && j == FindPercent(s, i) && j + 1 < |s| && s[j + 1] == '%'
    ensures FormatFrom(s, i, args, k, dict) == Prepend(s[i..j] + "%", FormatFrom(s, j + 2, args, k, dict))
  {
    hide Named; hide ParseDirective; hide FindPercent;
  }

  /** The formatter at a `%%`: anything between the two makes it raise. */
  lemma FormatAtPercent(s: string, i: nat, j: nat, q: nat, r: nat, args: seq<Value>, k: nat, dict: Option<Mapping>)
    requires Cut(s, i, j, q, r) && s[r] == '%'
    ensures i <= j < r
    ensures FormatFrom(s, i, args, k, dict)
         == if r == j + 1 then Prepend(s[i..j] + "%", FormatFrom(s, r + 1, args, k, dict)) else None
  {
    hide FormatFrom; hide Convert; hide ParseDirective; hide SkipZeros; hide SkipDigits; hide FindPercent;
    AfterCut(s, i, j, q, r, args, k);
    if r == j + 1 {
      FormatAtDouble(s, i, j, args, k, dict);
    } else {
      var d := Seen(s, j + 1, q, r, k);
      FormatAtDirective(s, i, j, args, k, dict, d);
      if k < |args| { NoPercentConversion(d, args[k]); }
    }
  }

  /** The formatter at a value. */
  lemma FormatAtValue(s: string, i: nat, j: nat, q: nat, r: nat, args: seq<Value>, k: nat, dict: Option<Mapping>)
    requires Cut(s, i, j, q, r) && k < |args| && (IsTextConv(s[r]) || IsIntConv(s[r]))
    ensures i <= j < q <= r
    ensures var c := Convert(Seen(s, j + 1, q, r, k), args[k]);
      FormatFrom(s, i, args, k, dict)
      == if c.None? then None else Prepend(s[i..j] + c.value, FormatFrom(s, r + 1, args, k + 1, dict))
  {
    hide FormatFrom; hide Convert; hide ParseDirective; hide SkipZeros; hide SkipDigits; hide FindPercent;
    AfterCut(s, i, j, q, r, args, k);
    assert r > j + 1 || j + 1 == r;
    FormatAtDirective(s, i, j, args, k, dict, Seen(s, j + 1, q, r, k));
  }

  lemma PrependTwice(a: string, b: string, rest: Option<string>)
    ensures Prepend(a, Prepend(b, rest)) == Prepend(a + b, rest)
    ensures Prepend("", rest) == rest
  {
    if rest.Some? {
      assert a + (b + rest.value) == a + b + rest.value;
      assert "" + rest.value == rest.value;
    }
  }

  lemma PrependCancels(a: string, x: Option<string>, b: string, y: Option<string>)
    requires x.Some? && Prepend(a, x) == Prepend(b, y) && |a| == |b|
    ensures a == b && x == y
  {
    SameLengthCancels(a, x.value, b, y.value);
  }

  lemma {:induction false} SegmentMeaning(s: string, begin: nat, i: nat, k: nat, args: seq<Value>, parts: seq<Part>,
                                          dict: Option<Mapping>)
    requires begin <= i <= |s| && RewriteFrom(s, begin, i, k, |args|) == Some(parts)
    ensures Fair(s, i, args, k) ==> Eval(parts, args) == Wanted(s, begin, i, args, k, dict)
    ensures Eval(parts, args).Some? && Eval(parts, args) == Wanted(s, begin, i, args, k, dict) ==> Fair(s, i, args, k)
    decreases |s| - i
  {
    hide Fair; hide RewriteFrom; hide Wanted; hide ValuePart; hide TextPart; hide Eval; hide EvalPart;
    hide SkipZeros; hide SkipDigits; hide FindPercent;
    var j := FindPercent(s, i);
    var text := s[begin..j];
    RewriteCases(s, begin, i, k, |args|);
    if j == |s| {
      SegmentEnd(s, begin, i, k, args, parts, dict);
    } else {
      var p := j + 1;
      var q := SkipZeros(s, p);
      var r := SkipDigits(s, q);
      if s[r] == '%' {
        var rest := RewriteFrom(s, r, r + 1, k, |args|).value;
        SegmentMeaning(s, r, r + 1, k, args, rest, dict);
        EvalText(text, rest, args);
        PercentMeaning(s, begin, i, j, q, r, k, args, rest, dict);
      } else {
        var part := ValuePart(k, s[r], s[p..r], r > q).value;
        var rest := RewriteFrom(s, r + 1, r + 1, k + 1, |args|).value;
        SegmentMeaning(s, r + 1, r + 1, k + 1, args, rest, dict);
        EvalTextPart(text, part, rest, args);
        ValueMeaning(s, begin, i, j, q, r, k, args, part, rest, dict);
      }
    }
  }

  /** `SegmentMeaning` without a further `%`. */
  lemma SegmentEnd(s: string, begin: nat, i: nat, k: nat, args: seq<Value>, parts: seq<Part>, dict: Option<Mapping>)
    requires begin <= i <= |s| && FindPercent(s, i) == |s| && RewriteFrom(s, begin, i, k, |args|) == Some(parts)
    ensures Fair(s, i, args, k) && Eval(parts, args).Some? && Eval(parts, args) == Wanted(s, begin, i, args, k, dict)
  {
    hide ValuePart; hide Named; hide ParseDirective; hide Convert; hide SkipZeros; hide SkipDigits; hide EvalPart;
    EvalText(s[begin..], [], args);
    assert TextPart(s[begin..]) + [] == TextPart(s[begin..]);
    assert s[begin..i] + s[i..] == s[begin..] == s[begin..] + "";
  }

  lemma FairAtPercent(s: string, i: nat, j: nat, q: nat, r: nat, args: seq<Value>, k: nat)
    requires Cut(s, i, j, q, r) && s[r] == '%'
    ensures Fair(s, i, args, k) <==> r == j + 1 && Fair(s, r + 1, args, k)
  {
    hide SkipZeros; hide SkipDigits; hide FindPercent; hide FairText; hide Number;
  }

  lemma FairAtText(s: string, i: nat, j: nat, q: nat, r: nat, args: seq<Value>, k: nat)
    requires Cut(s, i, j, q, r) && s[r] != '%' && i <= j < q <= r && k < |args|
    ensures Fair(s, i, args, k) <==>
      && (IsTextConv(s[r]) ==> FairText(q > j + 1, r > q, Number(s[q..r]), TextOf(args[k], s[r])))
      && Fair(s, r + 1, args, k + 1)
  {
    hide SkipZeros; hide SkipDigits; hide FindPercent; hide FairText; hide Number;
  }

  /** The step of `SegmentMeaning` at a `%%`. */
  lemma PercentMeaning(s: string, begin: nat, i: nat, j: nat, q: nat, r: nat, k: nat, args: seq<Value>, rest: seq<Part>,
                       dict: Option<Mapping>)
    requires Cut(s, i, j, q, r) && begin <= i <= j < r < |s| && s[r] == '%'
    requires Fair(s, r + 1, args, k) ==> Eval(rest, args) == Wanted(s, r, r + 1, args, k, dict)
    requires Eval(rest, args).Some? && Eval(rest, args) == Wanted(s, r, r + 1, args, k, dict)
      ==> Fair(s, r + 1, args, k)
    ensures var e, w := Prepend(s[begin..j], Eval(rest, args)), Wanted(s, begin, i, args, k, dict);
      && (Fair(s, i, args, k) ==> e == w) && (e.Some? && e == w ==> Fair(s, i, args, k))
  {
    hide Eval; hide Cut; hide Fair; hide FormatFrom;
    FormatAtPercent(s, i, j, q, r, args, k, dict);
    FairAtPercent(s, i, j, q, r, args, k);
    var f := FormatFrom(s, r + 1, args, k, dict);
    PrependTwice(s[begin..i], s[i..j] + "%", f);
    PrependTwice(s[begin..j], "%", f);
    assert s[begin..i] + (s[i..j] + "%") == s[begin..j] + "%" && s[r..r + 1] == "%";
    if r == j + 1 && Eval(rest, args).Some?
       && Prepend(s[begin..j], Eval(rest, args)) == Wanted(s, begin, i, args, k, dict) {
      PrependCancels(s[begin..j], Eval(rest, args), s[begin..j], Prepend("%", f));
    }
  }

  lemma FairAtValue(s: string, i: nat, j: nat, q: nat, r: nat, args: seq<Value>, k: nat, part: Part)
    requires Cut(s, i, j, q, r) && i <= j < q <= r && k < |args|
    requires s[r] != '%' && ValuePart(k, s[r], s[j + 1..r], r > q) == Some(part)
    ensures IsTextConv(s[r]) || IsIntConv(s[r])
    ensures var e, c := EvalPart(part, args), Convert(Seen(s, j + 1, q, r, k), args[k]);
      && (Fair(s, i, args, k) ==> e == c && Fair(s, r + 1, args, k + 1))
      && (e.Some? && c.Some? ==> |e.value| == |c.value|)
      && (e.Some? && e == c && Fair(s, r + 1, args, k + 1) ==> Fair(s, i, args, k))
  {
    hide Eval; hide EvalPart; hide Convert; hide FairText; hide SkipZeros; hide SkipDigits; hide FindPercent; hide Fair;
    PartAgainstConvert(s, j + 1, q, r, part, args, k);
    FairAtText(s, i, j, q, r, args, k);
    assert r == q ==> Number(s[q..r]) == 0;
  }

  /** The step of `SegmentMeaning` at a value. */
  lemma ValueMeaning(s: string, begin: nat, i: nat, j: nat, q: nat, r: nat, k: nat, args: seq<Value>,
                     part: Part, rest: seq<Part>, dict: Option<Mapping>)
    requires Cut(s, i, j, q, r) && begin <= i <= j < q <= r < |s| && k < |args|
    requires s[r] != '%' && ValuePart(k, s[r], s[j + 1..r], r > q) == Some(part)
    requires Fair(s, r + 1, args, k + 1) ==> Eval(rest, args) == Wanted(s, r + 1, r + 1, args, k + 1, dict)
    requires Eval(rest, args).Some? && Eval(rest, args) == Wanted(s, r + 1, r + 1, args, k + 1, dict)
      ==> Fair(s, r + 1, args, k + 1)
    ensures var x := EvalPart(part, args);
      var e := if x.None? then None else Prepend(s[begin..j] + x.value, Eval(rest, args));
      var w := Wanted(s, begin, i, args, k, dict);
      && (Fair(s, i, args, k) ==> e == w) && (e.Some? && e == w ==> Fair(s, i, args, k))
  {
    hide Cut; hide Fair; hide Eval; hide EvalPart; hide FormatFrom; hide Convert; hide ValuePart; hide Seen;
    hide IsTextConv; hide IsIntConv;
    var text := s[begin..j];
    FairAtValue(s, i, j, q, r, args, k, part);
    FormatAtValue(s, i, j, q, r, args, k, dict);
    var f := FormatFrom(s, r + 1, args, k + 1, dict);
    PrependTwice("", "", f);
    assert s[r + 1..r + 1] == "" && s[begin..i] + s[i..j] == text;
    var x, c := EvalPart(part, args), Convert(Seen(s, j + 1, q, r, k), args[k]);
    if c.Some? {
      PrependTwice(s[begin..i], s[i..j] + c.value, f);
      assert s[begin..i] + (s[i..j] + c.value) == text + c.value;
      if x.Some? && Eval(rest, args).Some?
         && Prepend(text + x.value, Eval(rest, args)) == Wanted(s, begin, i, args, k, dict) {
        PrependCancels(text + x.value, Eval(rest, args), text + c.value, f);
        SameLengthCancels(text, x.value, text, c.value);
      }
    }
  }

  lemma {:induction false} SegmentDefined(s: string, begin: nat, i: nat, k: nat, args: seq<Value>, parts: seq<Part>)
    requires begin <= i <= |s| && RewriteFrom(s, begin, i, k, |args|) == Some(parts)
    requires Fair(s, i, args, k) && IntsForInts(s, i, args, k)
    ensures Eval(parts, args).Some?
    decreases |s| - i
  {
    hide Fair; hide IntsForInts; hide RewriteFrom; hide ValuePart; hide TextPart; hide Eval; hide EvalPart;
    hide SkipZeros; hide SkipDigits; hide FindPercent; hide FairText;
    var j := FindPercent(s, i);
    RewriteCases(s, begin, i, k, |args|);
    if j == |s| {
      SegmentEnd(s, begin, i, k, args, parts, None);
    } else {
      var p := j + 1;
      var q := SkipZeros(s, p);
      var r := SkipDigits(s, q);
      FairCases(s, i, j, q, r, args, k);
      if s[r] == '%' {
        var rest := RewriteFrom(s, r, r + 1, k, |args|).value;
        SegmentDefined(s, r, r + 1, k, args, rest);
        EvalText(s[begin..j], rest, args);
      } else {
        var part := ValuePart(k, s[r], s[p..r], r > q).value;
        var rest := RewriteFrom(s, r + 1, r + 1, k + 1, |args|).value;
        SegmentDefined(s, r + 1, r + 1, k + 1, args, rest);
        EvalTextPart(s[begin..j], part, rest, args);
        FairAtValue(s, i, j, q, r, args, k, part);
        ConvertsIfInt(Seen(s, p, q, r, k), args[k]);
      }
    }
  }

  lemma ConvertsIfInt(d: Directive, v: Value)
    requires IsTextConv(d.conv) || (IsIntConv(d.conv) && IntFor(v, d.conv).Some?)
    ensures Convert(d, v).Some?
  {
  }

  lemma FairCases(s: string, i: nat, j: nat, q: nat, r: nat, args: seq<Value>, k: nat)
    requires Cut(s, i, j, q, r) && Fair(s, i, args, k) && IntsForInts(s, i, args, k)
    ensures s[r] == '%' ==> Fair(s, r + 1, args, k) && IntsForInts(s, r + 1, args, k)
    ensures s[r] != '%' ==> k < |args| && Fair(s, r + 1, args, k + 1) && IntsForInts(s, r + 1, args, k + 1)
    ensures s[r] != '%' && IsIntConv(s[r]) ==> IntFor(args[k], s[r]).Some?
  {
    hide FairText; hide SkipZeros; hide SkipDigits; hide FindPercent; hide Number;
  }

  // ----- the results -----

  /** The value of the f-string for a right side that is a tuple of `args`, or for a single
      expression a value that formats like one: `_mod_check_single_arg` raises unless it
      stands for exactly one argument. */
  function EvalFor(right: Right, parts: seq<Part>, args: seq<Value>): Option<string> {
    if right.Single? && |args| != 1 then None else Eval(parts, args)
  }

  /** Both sides take as many arguments as there are conversions. */
  lemma {:induction false} FormatTakesAll(s: string, begin: nat, i: nat, k: nat, n: nat, args: seq<Value>)
    requires begin <= i <= |s| && RewriteFrom(s, begin, i, k, n).Some? && FormatFrom(s, i, args, k, None).Some?
    requires k <= n && k <= |args|
    ensures |args| == n
    decreases |s| - i
  {
    hide RewriteFrom; hide FormatFrom; hide ValuePart; hide SkipZeros; hide SkipDigits; hide FindPercent; hide Convert;
    var j := FindPercent(s, i);
    RewriteCases(s, begin, i, k, n);
    if j == |s| {
      NoMoreConversions(s, begin, i, k, n, args);
    } else {
      var q := SkipZeros(s, j + 1);
      var r := SkipDigits(s, q);
      if s[r] == '%' {
        FormatAtPercent(s, i, j, q, r, args, k, None);
        FormatTakesAll(s, r, r + 1, k, n, args);
      } else {
        ValueConversion(k, s[r], s[j + 1..r], r > q);
        if k == |args| { NoArgumentLeft(s, i, j, q, r, args, k); }
        FormatAtValue(s, i, j, q, r, args, k, None);
        FormatTakesAll(s, r + 1, r + 1, k + 1, n, args);
      }
    }
  }

  lemma NoMoreConversions(s: string, begin: nat, i: nat, k: nat, n: nat, args: seq<Value>)
    requires begin <= i <= |s| && FindPercent(s, i) == |s| && k <= |args|
    requires RewriteFrom(s, begin, i, k, n).Some? && FormatFrom(s, i, args, k, None).Some?
    ensures |args| == n
  {
  }

  lemma NoArgumentLeft(s: string, i: nat, j: nat, q: nat, r: nat, args: seq<Value>, k: nat)
    requires Cut(s, i, j, q, r) && k >= |args| && (IsTextConv(s[r]) || IsIntConv(s[r]))
    ensures FormatFrom(s, i, args, k, None) == None
  {
    hide Convert; hide ParseDirective; hide SkipZeros; hide SkipDigits; hide FindPercent;
    AfterCut(s, i, j, q, r, args, k);
  }

  /** A tuple display has as many values as it shows; a single expression may be anything, also
      a tuple of any length, or a mapping, which is one argument. */
  predicate RightSide(right: Right, args: seq<Value>, dict: Option<Mapping>) {
    (right.Display? ==> right.n == |args| && dict.None?) && (dict.Some? ==> |args| == 1)
  }

  /** A fair format that is rewritten keeps its meaning: the f-string gives the text that
      the format gave, and raises where the format raised. If the right side is a tuple of
      another length than the format asks for, both raise, fair or not. */
  lemma RewritePreservesMeaning(s: string, right: Right, args: seq<Value>, parts: seq<Part>, dict: Option<Mapping>)
    requires Rewrite(s, right) == Some(parts) && RightSide(right, args, dict)
    requires |args| == NumValues(right) ==> Fair(s, 0, args, 0)
    ensures EvalFor(right, parts, args) == Format(s, args, dict)
  {
    if |args| == NumValues(right) {
      SegmentMeaning(s, 0, 0, 0, args, parts, dict);
      PrependTwice("", "", Format(s, args, dict));
    } else if Format(s, args, dict).Some? {
      FormatTakesAll(s, 0, 0, 0, NumValues(right), args);
    }
  }

  /** When integer conversions get integers, fair formats with one argument for each
      conversion are the only ones that keep their text. */
  lemma SameTextIffFair(s: string, right: Right, args: seq<Value>, parts: seq<Part>, dict: Option<Mapping>)
    requires Rewrite(s, right) == Some(parts) && RightSide(right, args, dict)
    requires IntsForInts(s, 0, args, 0)
    ensures EvalFor(right, parts, args).Some? && EvalFor(right, parts, args) == Format(s, args, dict)
       <==> Fair(s, 0, args, 0) && |args| == NumValues(right)
  {
    if |args| == NumValues(right) {
      SegmentMeaning(s, 0, 0, 0, args, parts, dict);
      PrependTwice("", "", Format(s, args, dict));
      if Fair(s, 0, args, 0) { SegmentDefined(s, 0, 0, 0, args, parts); }
    }
  }

  function LetterA(): Value {
    Value("a", "'a'", "'a'", Some("a"), None, None, None, None)
  }

  /** An unfair format: `"%02s" % ("a",)` is " a", the f-string gives "0a". */
  lemma ZeroFlagOnTextDiffers()
    ensures var args, parts := [LetterA()], [StrValue(0, 's', ">02")];
      && Rewrite("%02s", Display(1)) == Some(parts)
      && Format("%02s", args, None) == Some(" a") && Eval(parts, args) == Some("0a")
  {
    hide *;
    ZeroFlagRewritten("%02s");
    ZeroFlagFormatted("%02s", [LetterA()]);
    ZeroFlagEvaluated([LetterA()]);
  }

  lemma ZeroFlagRead(s: string)
    requires s == "%02s"
    ensures FindPercent(s, 0) == 0 && FindPercent(s, 4) == 4 && Specifiers(s, 0).Some?
    ensures SkipZeros(s, 1) == 2 && SkipDigits(s, 2) == 3 && Number(s[2..3]) == 2
  {
    assert s[2..3] == "2" && "2"[..0] == "" && Number("2") == 2 && Specifiers(s, 2).Some?;
  }

  lemma ZeroFlagRewritten(s: string)
    requires s == "%02s"
    ensures Rewrite(s, Display(1)) == Some([StrValue(0, 's', ">02")])
  {
    hide FindPercent; hide SkipZeros; hide SkipDigits; hide Specifiers; hide RewriteFrom;
    ZeroFlagRead(s);
    RewriteCases(s, 0, 0, 0, 1);
    RewriteEnds(s, 4, 1, 1, []);
    assert s[1..3] == "02" && ">" + "02" == ">02" && s[0..0] == "" && s[4..] == "";
    assert [] + [StrValue(0, 's', ">02")] + [] == [StrValue(0, 's', ">02")];
    ConsAssoc([], [], RewriteFrom(s, 4, 4, 1, 1));
    assert [] + TextPart("") == [];
  }

  lemma ZeroFlagFormatted(s: string, args: seq<Value>)
    requires s == "%02s" && args == [LetterA()]
    ensures Format(s, args, None) == Some(" a")
  {
    hide FindPercent; hide SkipZeros; hide SkipDigits; hide Number; hide ParseDirective;
    ZeroFlagRead(s);
    FormatAtValue(s, 0, 0, 2, 3, args, 0, None);
    assert s[0..0] == "" && s[4..] == "";
    assert s[0..0] + " a" + "" == " a";
    assert FormatText(Seen(s, 1, 2, 3, 0), "a") == " a" && FormatFrom(s, 4, args, 1, None) == Some("");
  }

  lemma ZeroFlagEvaluated(args: seq<Value>)
    requires args == [LetterA()]
    ensures Eval([StrValue(0, 's', ">02")], args) == Some("0a")
  {
    hide ParseSpec; hide Number; hide Eval;
    ZeroFlagRead("%02s");
    assert "%02s"[2..3] == "02"[1..];
    ParseTextSpec("02", 1, 2);
    assert ">" + "02" == ">02" && Pad("", "a", '0', '>', 2) == "0a";
    var part := StrValue(0, 's', ">02");
    assert TextPart("") + [part] + [] == [part];
    EvalTextPart("", part, [], args);
    assert "" + "" + "a" == "a" && "" + "0a" + "" == "0a";
    EvalNothing(args);
  }

  lemma EvalNothing(args: seq<Value>)
    ensures Eval([], args) == Some("")
  {
  }

  /** An unfair format: `"%5%." % ()` raises, the f-string gives "%.". */
  lemma WidthBeforePercentDiffers()
    ensures Rewrite("%5%.", Display(0)) == Some([Text("%.")]) && Format("%5%.", [], None) == None
    ensures Eval([Text("%.")], []) == Some("%.")
  {
    hide *;
    WidthRewritten("%5%.");
    WidthFormatted("%5%.");
    TextEvaluated("%.");
  }

  lemma WidthRewritten(s: string)
    requires s == "%5%."
    ensures Rewrite(s, Display(0)) == Some([Text("%.")])
  {
    hide FindPercent; hide SkipZeros; hide SkipDigits; hide Specifiers; hide RewriteFrom; hide ValuePart;
    WidthRead(s);
    RewriteCases(s, 0, 0, 0, 0);
    RewriteCases(s, 2, 3, 0, 0);
    RewriteEnds(s, 2, 0, 0, []);
    ConsAssoc([], [], RewriteFrom(s, 2, 4, 0, 0));
    ConsAssoc([], TextPart(""), RewriteFrom(s, 2, 4, 0, 0));
    assert s[2..] == "%." && s[0..0] == "" && [] + TextPart("%.") == TextPart("%.");
  }

  lemma WidthFormatted(s: string)
    requires s == "%5%."
    ensures Format(s, [], None) == None
  {
    hide FindPercent; hide SkipZeros; hide SkipDigits; hide FormatFrom;
    WidthRead(s);
    FormatAtPercent(s, 0, 0, 1, 2, [], 0, None);
  }

  lemma TextEvaluated(t: string)
    requires t != ""
    ensures Eval([Text(t)], []) == Some(t)
  {
    hide Eval;
    EvalText(t, [], []);
    EvalNothing([]);
    assert TextPart(t) + [] == [Text(t)] && t + "" == t;
  }

  lemma WidthRead(s: string)
    requires s == "%5%."
    ensures FindPercent(s, 0) == 0 && FindPercent(s, 3) == 4 && Specifiers(s, 0).Some?
    ensures SkipZeros(s, 1) == 1 && SkipDigits(s, 1) == 2
  {
    assert FindPercent(s, 2) == 2 && Specifiers(s, 2).Some?;
  }
}
