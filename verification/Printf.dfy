/** printf-style formatting: what `Formatter.format` gives for a tuple of values, and
    what the format mini-language of f-strings gives. A `None` result stands for a
    raised exception. */
module Printf {
  import opened Basics

  /** A floating-point number by its sign bit and what `_float_format` gives for a
      conversion, a precision and the `#` flag. */
  datatype Real = Real(negative: bool, text: (char, nat, bool) -> string)

  /** An object by what the conversions make of it: its three texts, the character it stands
      for, the integers that `int` and `_index` give, its value if it is an int, as a `*`
      asks, and the float it converts to. None stands for an exception. */
  datatype Value = Value(str: string, repr: string, ascii: string, single: Option<string>,
                         num: Option<int>, index: Option<int>, whole: Option<int>, float: Option<Real>)

  predicate IsDigit(c: char) {
    '0' <= c <= '9'
  }

  function Repeat(c: char, n: int): (r: string)
    ensures |r| == if n > 0 then n else 0
    ensures forall i :: 0 <= i < |r| ==> r[i] == c
  {
    if n <= 0 then "" else seq(n, _ => c)
  }

  function DigitChar(d: nat, upper: bool): char
    requires d < 16
  {
    if d < 10 then '0' + d as char else if upper then 'A' + (d - 10) as char else 'a' + (d - 10) as char
  }

  /** `n` in a base up to 16, without leading zeros. */
  function Digits(n: nat, base: nat, upper: bool): string
    requires 2 <= base <= 16
  {
    if n < base then [DigitChar(n, upper)]
    else Digits(n / base, base, upper) + [DigitChar(n % base, upper)]
  }

  predicate IsIntType(c: char) {
    c == 'd' || c == 'x' || c == 'X' || c == 'o'
  }

  function Magnitude(n: int, conv: char): string
    requires IsIntType(conv)
  {
    var m := if n < 0 then -n else n;
    if conv == 'd' then Digits(m, 10, false)
    else if conv == 'o' then Digits(m, 8, false)
    else Digits(m, 16, conv == 'X')
  }

  function DigitValue(c: char): nat {
    if IsDigit(c) then (c - '0') as nat else 0
  }

  /** The value of a run of decimal digits. */
  function Number(t: string): nat {
    if t == "" then 0 else Number(t[..|t| - 1]) * 10 + DigitValue(t[|t| - 1])
  }

  /** Index of the first character at or after `i` that is not a digit. */
  function SkipDigits(t: string, i: nat): (r: nat)
    requires i <= |t|
    ensures i <= r <= |t|
    ensures forall k :: i <= k < r ==> IsDigit(t[k])
    ensures r < |t| ==> !IsDigit(t[r])
    decreases |t| - i
  {
    if i < |t| && IsDigit(t[i]) then SkipDigits(t, i + 1) else i
  }

  // ----- the format mini-language -----

  /** `width` is -1 if absent, `kind` the presentation type. */
  datatype Spec = Spec(fill: char, align: char, width: int, kind: char)

  predicate IsAlign(c: char) {
    c == '<' || c == '>' || c == '=' || c == '^'
  }

  /** A format specifier without sign, `#`, separators and precision. */
  function ParseSpec(t: string, defaultKind: char, defaultAlign: char): Option<Spec> {
    if |t| >= 2 && IsAlign(t[1]) then ParseWidth(t[2..], t[0], t[1], defaultKind)
    else if |t| >= 1 && IsAlign(t[0]) then
      ParseWidth(t[1..], if |t| >= 2 && t[1] == '0' then '0' else ' ', t[0], defaultKind)
    else if |t| >= 1 && t[0] == '0' then ParseWidth(t, '0', '=', defaultKind)
    else ParseWidth(t, ' ', defaultAlign, defaultKind)
  }

  function ParseWidth(t: string, fill: char, align: char, defaultKind: char): Option<Spec> {
    var n := SkipDigits(t, 0);
    var width := if n == 0 then -1 else Number(t[..n]);
    if n == |t| then Some(Spec(fill, align, width, defaultKind))
    else if n + 1 == |t| then Some(Spec(fill, align, width, t[n]))
    else None
  }

  function Pad(head: string, body: string, fill: char, align: char, width: int): string {
    var n := width - |head| - |body|;
    if n <= 0 then head + body
    else if align == '<' then head + body + Repeat(fill, n)
    else if align == '^' then Repeat(fill, n / 2) + head + body + Repeat(fill, n - n / 2)
    else if align == '=' then head + Repeat(fill, n) + body
    else Repeat(fill, n) + head + body
  }

  function Sign(n: int): string {
    if n < 0 then "-" else ""
  }

  /** `format(n, spec)` for an integer. */
  function FormatInt(n: int, spec: string): Option<string> {
    if spec == "" then Some(Sign(n) + Magnitude(n, 'd'))
    else match ParseSpec(spec, 'd', '>')
      case None => None
      case Some(f) =>
        if IsIntType(f.kind) then Some(Pad(Sign(n), Magnitude(n, f.kind), f.fill, f.align, f.width)) else None
  }

  /** `format(t, spec)` for a string. */
  function FormatStr(t: string, spec: string): Option<string> {
    if spec == "" then Some(t)
    else match ParseSpec(spec, 's', '<')
      case None => None
      case Some(f) => if f.kind == 's' && f.align != '=' then Some(Pad("", t, f.fill, f.align, f.width)) else None
  }

  // ----- Formatter.format -----

  datatype Flags = Flags(ljust: bool, zero: bool, sign: string, alt: bool)

  /** `next` is the position after the conversion, `arg` the argument it takes. */
  datatype Directive = Directive(flags: Flags, width: int, precision: int, conv: char, next: nat, arg: nat)

  predicate IsFlag(c: char) {
    c == '-' || c == '+' || c == ' ' || c == '#' || c == '0'
  }

  function AddFlag(f: Flags, c: char): Flags {
    if c == '-' then f.(ljust := true)
    else if c == '+' then f.(sign := "+")
    else if c == ' ' then (if f.sign == "+" then f else f.(sign := " "))
    else if c == '#' then f.(alt := true)
    else f.(zero := true)
  }

  function ParseFlags(s: string, i: nat, f: Flags): (r: (Flags, nat))
    requires i <= |s|
    ensures i <= r.1 <= |s|
    decreases |s| - i
  {
    if i < |s| && IsFlag(s[i]) then ParseFlags(s, i + 1, AddFlag(f, s[i])) else (f, i)
  }

  const NO_FLAGS := Flags(false, false, "", false)

  /** A width or precision at `i`, -1 if there is none, with the next position and the next
      argument; a `*` takes argument `k`, which must be an int. */
  function ParseField(s: string, i: nat, args: seq<Value>, k: nat): (r: Option<(int, nat, nat)>)
    requires i <= |s|
    ensures r.Some? ==> i <= r.value.1 <= |s| && k <= r.value.2
  {
    if IsStar(s, i) then
      if k < |args| && args[k].whole.Some? then Some((args[k].whole.value, i + 1, k + 1)) else None
    else
      var q := SkipDigits(s, i);
      Some((if q == i then -1 else Number(s[i..q]), q, k))
  }

  predicate IsStar(s: string, i: nat) {
    i < |s| && s[i] == '*'
  }

  /** What stands between a `%` and its conversion; None if the string ends there, or a `*`
      has no int. */
  function ParseDirective(s: string, i: nat, args: seq<Value>, k: nat): (r: Option<Directive>)
    requires i <= |s|
    ensures r.Some? ==> i < r.value.next <= |s| && k <= r.value.arg
  {
    var (flags0, p) := ParseFlags(s, i, NO_FLAGS);
    match ParseField(s, p, args, k)
    case None => None
    case Some((w, q, k1)) =>
      var left := IsStar(s, p) && w < 0;
      var flags, width := if left then flags0.(ljust := true) else flags0, if left then -w else w;
      if q >= |s| then None
      else if s[q] == '.' then
        match ParseField(s, q + 1, args, k1)
        case None => None
        case Some((n, r, k2)) =>
          if r >= |s| then None else Some(Directive(flags, width, if n < 0 then 0 else n, s[r], r + 1, k2))
      else Some(Directive(flags, width, -1, s[q], q + 1, k1))
  }

  /** `_format_string` */
  function FormatText(d: Directive, text: string): string {
    var t := if 0 <= d.precision < |text| then text[..d.precision] else text;
    var padding := d.width - |t|;
    if d.width <= 0 || padding <= 0 then t
    else if d.flags.ljust then t + Repeat(' ', padding)
    else Repeat(' ', padding) + t
  }

  /** `_format_number` */
  function FormatNumber(d: Directive, sign: string, prefix: string, digits: string): string {
    if d.width <= 0 && d.precision < 0 then sign + prefix + digits
    else
      var zeros := if d.precision >= 0 then d.precision - |digits| else 0;
      var room := d.width - |digits| - |sign| - |prefix|;
      var padding := if d.precision >= 0 && zeros > 0 then room - zeros else room;
      if d.flags.zero && !d.flags.ljust then
        sign + prefix + Repeat('0', if padding > 0 then zeros + padding else zeros) + digits
      else if d.flags.ljust then sign + prefix + Repeat('0', zeros) + digits + Repeat(' ', padding)
      else Repeat(' ', padding) + sign + prefix + Repeat('0', zeros) + digits
  }

  function Prefix(d: Directive): string {
    if d.flags.alt && d.conv != 'd' then ['0', d.conv] else ""
  }

  predicate IsFloatType(c: char) {
    c == 'e' || c == 'E' || c == 'f' || c == 'F' || c == 'g' || c == 'G'
  }

  /** The integer that a conversion asks for. */
  function IntFor(v: Value, conv: char): Option<int> {
    if conv == 'x' || conv == 'X' || conv == 'o' then v.index else v.num
  }

  /** One conversion. */
  function Convert(d: Directive, v: Value): Option<string> {
    if d.conv == 's' then Some(FormatText(d, v.str))
    else if d.conv == 'r' then Some(FormatText(d, v.repr))
    else if d.conv == 'a' then Some(FormatText(d, v.ascii))
    else if d.conv == 'c' then (if v.single.None? then None else Some(FormatText(d, v.single.value)))
    else if IsFloatType(d.conv) then
      if v.float.None? then None
      else
        var f := v.float.value;
        var text := f.text(d.conv, if d.precision < 0 then 6 else d.precision, d.flags.alt);
        Some(FormatNumber(d.(precision := 0), if f.negative then "-" else d.flags.sign, "", text))
    else
      var conv := if d.conv == 'i' || d.conv == 'u' then 'd' else d.conv;
      var n := IntFor(v, conv);
      if IsIntType(conv) && n.Some? then
        var sign := if n.value < 0 then "-" else d.flags.sign;
        Some(FormatNumber(d, sign, Prefix(d.(conv := conv)), Magnitude(n.value, conv)))
      else None
  }

  function FindPercent(s: string, i: nat): (j: nat)
    requires i <= |s|
    ensures i <= j <= |s|
    ensures forall k :: i <= k < j ==> s[k] != '%'
    ensures j < |s| ==> s[j] == '%'
    decreases |s| - i
  {
    if i < |s| && s[i] != '%' then FindPercent(s, i + 1) else i
  }

  function Prepend(t: string, rest: Option<string>): Option<string> {
    match rest
    case None => None
    case Some(r) => Some(t + r)
  }

  /** A mapping on the right of `%` by its lookup. */
  type Mapping = string -> Option<Value>

  /** The parenthesis that closes `depth` open ones. */
  function KeyEnd(s: string, i: nat, depth: nat): (r: Option<nat>)
    requires i <= |s| && depth > 0
    ensures r.Some? ==> i <= r.value < |s| && s[r.value] == ')'
    decreases |s| - i
  {
    if i == |s| then None
    else if s[i] == ')' then (if depth == 1 then Some(i) else KeyEnd(s, i + 1, depth - 1))
    else KeyEnd(s, i + 1, if s[i] == '(' then depth + 1 else depth)
  }

  /** The arguments that a directive takes from, the next of them, and where its flags start:
      after a key in parentheses there is only the value that the mapping has for it. */
  function Named(s: string, p: nat, args: seq<Value>, k: nat, dict: Option<Mapping>)
    : (r: Option<(seq<Value>, nat, nat)>)
    requires p < |s|
    ensures r.Some? ==> p <= r.value.2 <= |s|
  {
    if s[p] != '(' then Some((args, k, p))
    else if dict.None? then None
    else match KeyEnd(s, p + 1, 1)
      case None => None
      case Some(e) =>
        match dict.value(s[p + 1..e])
        case None => None
        case Some(v) => Some(([v], 0, e + 1))
  }

  /** `string % args` from position `i` on, with `k` arguments already used. */
  function FormatFrom(s: string, i: nat, args: seq<Value>, k: nat, dict: Option<Mapping>): Option<string>
    requires i <= |s|
    decreases |s| - i
  {
    var j := FindPercent(s, i);
    if j == |s| then (if k < |args| && dict.None? then None else Some(s[i..]))
    else if j + 1 == |s| then None
    else if s[j + 1] == '%' then Prepend(s[i..j] + "%", FormatFrom(s, j + 2, args, k, dict))
    else match Named(s, j + 1, args, k, dict)
      case None => None
      case Some((vs, n, p)) =>
        match ParseDirective(s, p, vs, n)
        case None => None
        case Some(d) =>
          if d.arg >= |vs| || Convert(d, vs[d.arg]).None? then None
          else Prepend(s[i..j] + Convert(d, vs[d.arg]).value, FormatFrom(s, d.next, vs, d.arg + 1, dict))
  }

  /** The right side is a tuple of `args`, or any other value, which is the only argument and
      may be a mapping. */
  function Format(s: string, args: seq<Value>, dict: Option<Mapping>): Option<string> {
    FormatFrom(s, 0, args, 0, dict)
  }
}
