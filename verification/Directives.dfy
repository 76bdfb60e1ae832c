/** What the parts of a printf directive mean: flags, fields, names, and the layout of what
    each conversion gives. */
module Directives {
  import opened Basics
  import opened Printf

  // ----- numerals -----

  function DigitOf(c: char): nat {
    if '0' <= c <= '9' then (c - '0') as nat
    else if 'a' <= c <= 'f' then (c - 'a') as nat + 10
    else if 'A' <= c <= 'F' then (c - 'A') as nat + 10
    else 0
  }

  /** The number that a numeral stands for. */
  function NumeralValue(t: string, base: nat): nat {
    if t == "" then 0 else base * NumeralValue(t[..|t| - 1], base) + DigitOf(t[|t| - 1])
  }

  /** The characters of numerals in a base up to 16. */
  predicate IsNumeral(t: string, base: nat, upper: bool) {
    forall i :: 0 <= i < |t| ==>
      DigitOf(t[i]) < base && t[i] in (if upper then "0123456789ABCDEF" else "0123456789abcdef")
  }

  lemma DigitCharIs(d: nat, upper: bool)
    requires d < 16
    ensures DigitOf(DigitChar(d, upper)) == d && (DigitChar(d, upper) == '0' <==> d == 0)
    ensures DigitChar(d, upper) in (if upper then "0123456789ABCDEF" else "0123456789abcdef")
  {
    var all := if upper then "0123456789ABCDEF" else "0123456789abcdef";
    assert all[d] == DigitChar(d, upper);
  }

  /** `Digits` gives the numeral of the number, without leading zeros. */
  lemma {:induction false} DigitsAreNumeral(n: nat, base: nat, upper: bool)
    requires 2 <= base <= 16
    ensures var t := Digits(n, base, upper);
      t != "" && NumeralValue(t, base) == n && IsNumeral(t, base, upper) && (t[0] == '0' ==> t == "0")
    decreases n
  {
    hide IsNumeral; hide NumeralValue; hide DigitChar;
    if n < base {
      DigitCharIs(n, upper);
      OneDigit(DigitChar(n, upper), base, upper);
    } else {
      var high, c := Digits(n / base, base, upper), DigitChar(n % base, upper);
      QuotientAndRemainder(n, base);
      DigitsAreNumeral(n / base, base, upper);
      DigitCharIs(n % base, upper);
      OneDigit(c, base, upper);
      OneMoreDigit(high, c, base, upper);
      assert (high + [c])[0] == high[0];
      if high == "0" { OneDigit('0', base, upper); }
    }
  }

  lemma QuotientAndRemainder(n: nat, base: nat)
    requires 2 <= base <= n
    ensures n == base * (n / base) + n % base && 1 <= n / base < n && n % base < base
  {
    AtLeastOne(n, base);
  }

  lemma OneDigit(c: char, base: nat, upper: bool)
    ensures NumeralValue([c], base) == DigitOf(c)
    ensures IsNumeral([c], base, upper)
       <==> DigitOf(c) < base && c in (if upper then "0123456789ABCDEF" else "0123456789abcdef")
  {
    assert [c][..0] == "" && base * NumeralValue("", base) == 0 && [c][0] == c;
  }

  lemma OneMoreDigit(t: string, c: char, base: nat, upper: bool)
    ensures NumeralValue(t + [c], base) == base * NumeralValue(t, base) + DigitOf(c)
    ensures IsNumeral(t, base, upper) && IsNumeral([c], base, upper) ==> IsNumeral(t + [c], base, upper)
  {
    assert (t + [c])[..|t|] == t && [c][0] == c;
  }

  lemma AtLeastOne(n: nat, base: nat)
    requires 0 < base <= n
    ensures n / base >= 1
  {
  }

  /** A run of decimal digits is read as the number it stands for. */
  lemma {:induction false} NumberIsNumeral(t: string)
    requires forall i :: 0 <= i < |t| ==> IsDigit(t[i])
    ensures Number(t) == NumeralValue(t, 10)
  {
    if t != "" { NumberIsNumeral(t[..|t| - 1]); }
  }

  /** The decimal numeral of a number is read as the number. */
  lemma NumberOfDigits(n: nat)
    ensures Number(Digits(n, 10, false)) == n
  {
    DigitsAreNumeral(n, 10, false);
    var t := Digits(n, 10, false);
    forall i | 0 <= i < |t| ensures IsDigit(t[i]) { DecimalDigit(t[i]); }
    NumberIsNumeral(t);
  }

  lemma DecimalDigit(c: char)
    requires c in "0123456789abcdef" && DigitOf(c) < 10
    ensures IsDigit(c)
  {
  }

  // ----- flags -----

  /** Each flag stands for itself wherever it comes, and `+` overrules a blank. */
  predicate FlagsGiven(f: Flags, run: string, r: Flags) {
    && (r.ljust <==> f.ljust || '-' in run) && (r.zero <==> f.zero || '0' in run)
    && (r.alt <==> f.alt || '#' in run)
    && r.sign == if '+' in run || f.sign == "+" then "+" else if ' ' in run then " " else f.sign
  }

  /** The flags are all the characters `-+ #0` from `i` on. */
  lemma {:induction false} FlagsByMembership(s: string, i: nat, f: Flags)
    requires i <= |s|
    ensures var (r, p) := ParseFlags(s, i, f);
      && (forall k :: i <= k < p ==> s[k] in "-+ #0") && (p < |s| ==> s[p] !in "-+ #0")
      && FlagsGiven(f, s[i..p], r)
    decreases |s| - i
  {
    hide FlagsGiven; hide AddFlag;
    var (r, p) := ParseFlags(s, i, f);
    if i < |s| && IsFlag(s[i]) {
      FlagsByMembership(s, i + 1, AddFlag(f, s[i]));
      assert s[i..p] == [s[i]] + s[i + 1..p];
      OneMoreFlag(f, s[i], s[i + 1..p], r);
    } else {
      NoFlag(f);
      assert s[i..i] == "";
    }
  }

  lemma NoFlag(f: Flags)
    ensures FlagsGiven(f, "", f)
  {
  }

  lemma OneMoreFlag(f: Flags, c: char, run: string, r: Flags)
    requires IsFlag(c) && FlagsGiven(AddFlag(f, c), run, r)
    ensures FlagsGiven(f, [c] + run, r)
  {
    assert forall x :: x in [c] + run <==> x == c || x in run;
  }

  // ----- fields -----

  /** A width or precision from `p` to `q`: a `*` that takes an int from the arguments, or all
      digits that stand there; `value` is -1 if there are none. */
  predicate FieldAt(s: string, p: nat, q: nat, args: seq<Value>, k: nat, value: int, k1: nat) {
    p <= q <= |s| &&
    if p < |s| && s[p] == '*' then
      q == p + 1 && k < |args| && args[k].whole == Some(value) && k1 == k + 1
    else
      && (forall j :: p <= j < q ==> '0' <= s[j] <= '9') && (q < |s| ==> !('0' <= s[q] <= '9'))
      && k1 == k && value == if p == q then -1 else NumeralValue(s[p..q], 10)
  }

  /** A `*` without an int to take. */
  predicate StarFails(s: string, p: nat, args: seq<Value>, k: nat) {
    p < |s| && s[p] == '*' && (k >= |args| || args[k].whole == None)
  }

  lemma FieldIsRead(s: string, p: nat, args: seq<Value>, k: nat)
    requires p <= |s|
    ensures var f := ParseField(s, p, args, k);
      if f.None? then StarFails(s, p, args, k) else FieldAt(s, p, f.value.1, args, k, f.value.0, f.value.2)
  {
    if !IsStar(s, p) {
      var q := SkipDigits(s, p);
      NumberIsNumeral(s[p..q]);
    }
  }

  /** A directive from `i` on: flags to `p`, a width to `q`, perhaps a point and a precision to
      `r`, and the conversion at `c`. */
  predicate DirectiveAt(s: string, i: nat, p: nat, q: nat, c: nat, args: seq<Value>, k: nat, w: int, k1: nat, n: int,
                        d: Directive) {
    && i <= p <= q <= c < |s|
    && (forall j :: i <= j < p ==> s[j] in "-+ #0") && s[p] !in "-+ #0"
    && FieldAt(s, p, q, args, k, w, k1)
    && (if s[q] == '.' then q < c && FieldAt(s, q + 1, c, args, k1, n, d.arg) else c == q && d.arg == k1 && n == -1)
    && d.conv == s[c] && d.next == c + 1
    && d.precision == (if s[q] != '.' then -1 else if n < 0 then 0 else n)
    && (var left := s[p] == '*' && w < 0;
        && d.width == (if left then -w else w)
        && d.flags.ljust == ('-' in s[i..p] || left) && d.flags.zero == ('0' in s[i..p])
        && d.flags.alt == ('#' in s[i..p])
        && d.flags.sign == if '+' in s[i..p] then "+" else if ' ' in s[i..p] then " " else "")
  }

  /** What stands between a `%` and its conversion is read so; it is refused only if the string
      ends there or a `*` has no int to take. */
  lemma DirectiveIsRead(s: string, i: nat, args: seq<Value>, k: nat)
    returns (p: nat, q: nat, c: nat, w: int, k1: nat, n: int, k2: nat)
    requires i <= |s|
    ensures var d := ParseDirective(s, i, args, k);
      if d.Some? then DirectiveAt(s, i, p, q, c, args, k, w, k1, n, d.value)
      else
        || StarFails(s, p, args, k) || (FieldAt(s, p, q, args, k, w, k1) && q == |s|)
        || (FieldAt(s, p, q, args, k, w, k1) && q < |s| && s[q] == '.'
            && (StarFails(s, q + 1, args, k1) || FieldAt(s, q + 1, |s|, args, k1, n, k2)))
  {
    hide FieldAt; hide StarFails; hide ParseFlags; hide ParseField;
    p := ParseFlags(s, i, NO_FLAGS).1;
    q, c, w, k1, n, k2 := 0, 0, 0, 0, -1, 0;
    FlagsByMembership(s, i, NO_FLAGS);
    FieldIsRead(s, p, args, k);
    var f := ParseField(s, p, args, k);
    if f.Some? {
      w, q, k1 := f.value.0, f.value.1, f.value.2;
      c := q;
      if q < |s| && s[q] == '.' {
        FieldIsRead(s, q + 1, args, k1);
        var g := ParseField(s, q + 1, args, k1);
        if g.Some? { n, c, k2 := g.value.0, g.value.1, g.value.2; }
      }
    }
  }

  // ----- names -----

  /** How many more parentheses `s[i..j]` opens than it closes. */
  function Opened(s: string, i: nat, j: nat): int
    requires i <= j <= |s|
    decreases j
  {
    if i == j then 0
    else Opened(s, i, j - 1) + if s[j - 1] == '(' then 1 else if s[j - 1] == ')' then -1 else 0
  }

  lemma {:induction false} OpenedFirst(s: string, i: nat, j: nat)
    requires i < j <= |s|
    ensures Opened(s, i, j) == Opened(s, i + 1, j) + if s[i] == '(' then 1 else if s[i] == ')' then -1 else 0
    decreases j
  {
    if i + 1 < j { OpenedFirst(s, i, j - 1); }
  }

  /** With `depth` open, the parenthesis at `e` is the first to close them all. */
  ghost predicate Closes(s: string, i: nat, e: nat, depth: nat) {
    && i <= e < |s| && depth + Opened(s, i, e + 1) == 0
    && forall j :: i <= j <= e ==> depth + Opened(s, i, j) > 0
  }

  /** All of the rest leaves one open. */
  ghost predicate NeverCloses(s: string, i: nat, depth: nat) {
    forall j :: i <= j <= |s| ==> depth + Opened(s, i, j) > 0
  }

  /** A key runs to the matching parenthesis; there is none only if all the rest of the string
      leaves one open. */
  lemma {:induction false} KeyRunsToMatch(s: string, i: nat, depth: nat)
    requires i <= |s| && depth > 0
    ensures var r := KeyEnd(s, i, depth);
      if r.Some? then Closes(s, i, r.value, depth) else NeverCloses(s, i, depth)
    decreases |s| - i
  {
    if i < |s| {
      var next := depth + if s[i] == '(' then 1 else if s[i] == ')' then -1 else 0;
      forall j | i < j <= |s| ensures depth + Opened(s, i, j) == next + Opened(s, i + 1, j) { OpenedFirst(s, i, j); }
      if next > 0 { KeyRunsToMatch(s, i + 1, next); }
    }
  }

  /** A name takes its value from the mapping, as the only argument; `e` closes it. */
  lemma NameIsLookedUp(s: string, p: nat, args: seq<Value>, k: nat, dict: Option<Mapping>) returns (e: nat)
    requires p < |s|
    ensures var r := Named(s, p, args, k, dict);
      if s[p] != '(' then r == Some((args, k, p))
      else if dict.None? || NeverCloses(s, p + 1, 1) then r == None
      else
        && Closes(s, p + 1, e, 1)
        && (var v := dict.value(s[p + 1..e]);
            if v.None? then r == None
            else r.Some? && r.value.0 == [v.value] && r.value.1 == 0 && r.value.2 == e + 1)
  {
    e := p;
    if s[p] == '(' {
      KeyRunsToMatch(s, p + 1, 1);
      var end := KeyEnd(s, p + 1, 1);
      if end.Some? {
        e := end.value;
        assert 1 + Opened(s, p + 1, e + 1) == 0;
      }
    }
  }

  // ----- layout -----

  /** `text` cut to the precision, with blanks to the width on the right if `-` is given and on
      the left otherwise. */
  predicate TextLaidOut(d: Directive, text: string, out: string) {
    var n := if 0 <= d.precision < |text| then d.precision else |text|;
    && |out| == (if d.width > n then d.width else n)
    && if d.flags.ljust then out[..n] == text[..n] && forall i :: n <= i < |out| ==> out[i] == ' '
       else out[|out| - n..] == text[..n] && forall i :: 0 <= i < |out| - n ==> out[i] == ' '
  }

  lemma TextIsLaidOut(d: Directive, text: string)
    ensures TextLaidOut(d, text, FormatText(d, text))
  {
    assert text[..|text|] == text;
  }

  /** The text conversions and what they lay out. */
  lemma TextConverted(d: Directive, v: Value)
    ensures d.conv == 's' ==> Convert(d, v).Some? && TextLaidOut(d, v.str, Convert(d, v).value)
    ensures d.conv == 'r' ==> Convert(d, v).Some? && TextLaidOut(d, v.repr, Convert(d, v).value)
    ensures d.conv == 'a' ==> Convert(d, v).Some? && TextLaidOut(d, v.ascii, Convert(d, v).value)
    ensures d.conv == 'c' ==>
      if v.single.None? then Convert(d, v) == None
      else Convert(d, v).Some? && TextLaidOut(d, v.single.value, Convert(d, v).value)
  {
    hide TextLaidOut; hide FormatText;
    TextIsLaidOut(d, v.str);
    TextIsLaidOut(d, v.repr);
    TextIsLaidOut(d, v.ascii);
    if v.single.Some? { TextIsLaidOut(d, v.single.value); }
  }

  function Max(a: int, b: int): int {
    if a > b then a else b
  }

  function Line(c: char, n: nat): (r: string)
    ensures |r| == n && forall i :: 0 <= i < n ==> r[i] == c
  {
    if n == 0 then "" else Line(c, n - 1) + [c]
  }

  /** A number: blanks, sign, prefix, zeros, digits, blanks, in this order. Blanks stand on the
      right if `-` is given, and otherwise on the left; with `0` and no `-` zeros fill the width
      instead, after what the precision adds to the digits or falls short of them. */
  predicate NumberLaidOut(d: Directive, sign: string, prefix: string, digits: string, out: string) {
    var given := if d.precision >= 0 then d.precision - |digits| else 0;
    var room := Max(0, d.width - |sign| - |prefix| - |digits| - Max(0, given));
    var fill := d.flags.zero && !d.flags.ljust;
    var zeros := Max(0, if fill then given + room else given);
    var body := sign + prefix + Line('0', zeros) + digits;
    out == if fill then body else if d.flags.ljust then body + Line(' ', room) else Line(' ', room) + body
  }

  lemma LineIsRepeat(c: char, n: int)
    ensures Repeat(c, n) == Line(c, Max(0, n))
  {
  }

  lemma NumberIsLaidOut(d: Directive, sign: string, prefix: string, digits: string)
    ensures NumberLaidOut(d, sign, prefix, digits, FormatNumber(d, sign, prefix, digits))
  {
    hide Repeat; hide Line;
    forall c: char, n: int ensures Repeat(c, n) == Line(c, Max(0, n)) { LineIsRepeat(c, n); }
    NoLine();
    forall spaces: string, zeros: string
      ensures spaces + sign + prefix + zeros + digits == spaces + (sign + prefix + zeros + digits)
    {
      Assoc(spaces, sign, prefix, zeros, digits);
    }
  }

  lemma NoLine()
    ensures Line(' ', 0) == "" && Line('0', 0) == ""
  {
  }

  lemma Assoc(a: string, b: string, c: string, d: string, e: string)
    ensures a + b + c + d + e == a + (b + c + d + e)
  {
  }

  predicate IsIntConversion(c: char) {
    c == 'd' || c == 'i' || c == 'u' || c == 'x' || c == 'X' || c == 'o'
  }

  /** An integer conversion: the sign, the prefix if `#` is given, and the digits of the number
      in the base of the conversion. */
  lemma IntConverted(d: Directive, v: Value) returns (digits: string)
    requires IsIntConversion(d.conv)
    ensures var n := if d.conv in "xXo" then v.index else v.num;
      if n.None? then Convert(d, v) == None
      else
        var base := if d.conv in "xX" then 16 else if d.conv == 'o' then 8 else 10;
        && Convert(d, v).Some?
        && NumberLaidOut(d, if n.value < 0 then "-" else d.flags.sign,
                         if d.flags.alt && d.conv in "xXo" then "0" + [d.conv] else "", digits, Convert(d, v).value)
        && IsNumeral(digits, base, d.conv == 'X') && digits != "" && (digits[0] == '0' ==> digits == "0")
        && NumeralValue(digits, base) == if n.value < 0 then -n.value else n.value
  {
    hide NumberLaidOut; hide FormatNumber; hide IsNumeral; hide NumeralValue; hide Digits;
    digits := "";
    var conv := if d.conv == 'i' || d.conv == 'u' then 'd' else d.conv;
    var n := IntFor(v, conv);
    if n.Some? {
      digits := Magnitude(n.value, conv);
      assert Prefix(d.(conv := conv)) == if d.flags.alt && d.conv in "xXo" then "0" + [d.conv] else "";
      NumberIsLaidOut(d, if n.value < 0 then "-" else d.flags.sign, Prefix(d.(conv := conv)), digits);
      DigitsAreNumeral(if n.value < 0 then -n.value else n.value,
                       if conv == 'd' then 10 else if conv == 'o' then 8 else 16, conv == 'X');
    }
  }

  /** A floating-point conversion lays out the digits that the float gives with the precision 0. */
  lemma FloatConverted(d: Directive, v: Value)
    requires d.conv in "eEfFgG"
    ensures if v.float.None? then Convert(d, v) == None
      else
        var f := v.float.value;
        && Convert(d, v).Some?
        && NumberLaidOut(d.(precision := 0), if f.negative then "-" else d.flags.sign, "",
                         f.text(d.conv, if d.precision < 0 then 6 else d.precision, d.flags.alt), Convert(d, v).value)
  {
    hide NumberLaidOut; hide FormatNumber;
    if v.float.Some? {
      var f := v.float.value;
      NumberIsLaidOut(d.(precision := 0), if f.negative then "-" else d.flags.sign, "",
                      f.text(d.conv, if d.precision < 0 then 6 else d.precision, d.flags.alt));
    }
  }

  /** No other character is a conversion. */
  lemma NoOtherConversions(d: Directive, v: Value)
    requires d.conv !in "sracdiuxXoeEfFgG"
    ensures Convert(d, v) == None
  {
  }

  // ----- the whole string -----

  lemma PrependTwice(a: string, b: string, rest: Option<string>)
    ensures Prepend(a, Prepend(b, rest)) == Prepend(a + b, rest)
  {
    if rest.Some? { assert a + (b + rest.value) == a + b + rest.value; }
  }

  /** What the percent sign at `i` and all after it stand for. At the end of the string it is an
      error, and doubled it stands for one. Else a directive stands for what its conversion makes
      of its argument, and the next argument is taken after it. */
  function AtPercent(s: string, i: nat, args: seq<Value>, k: nat, dict: Option<Mapping>): Option<string>
    requires i < |s|
  {
    if i + 1 == |s| then None
    else if s[i + 1] == '%' then Prepend("%", FormatFrom(s, i + 2, args, k, dict))
    else
      var named := Named(s, i + 1, args, k, dict);
      if named.None? then None
      else
        var (vs, n, p) := named.value;
        var d := ParseDirective(s, p, vs, n);
        if d.None? || d.value.arg >= |vs| || Convert(d.value, vs[d.value.arg]).None? then None
        else
          Prepend(Convert(d.value, vs[d.value.arg]).value,
                  FormatFrom(s, d.value.next, vs, d.value.arg + 1, dict))
  }

  lemma TextThenPercent(s: string, i: nat, j: nat, args: seq<Value>, k: nat, dict: Option<Mapping>)
    requires i <= j < |s| && s[j] == '%' && forall x :: i <= x < j ==> s[x] != '%'
    ensures FormatFrom(s, i, args, k, dict) == Prepend(s[i..j], AtPercent(s, j, args, k, dict))
  {
    hide Named; hide ParseDirective; hide Convert; hide Prepend;
    assert FindPercent(s, i) == j;
    PrependNone(s[i..j]);
    if j + 1 < |s| {
      if s[j + 1] == '%' {
        PrependTwice(s[i..j], "%", FormatFrom(s, j + 2, args, k, dict));
      } else {
        var named := Named(s, j + 1, args, k, dict);
        if named.Some? {
          var (vs, n, p) := named.value;
          var d := ParseDirective(s, p, vs, n);
          if d.Some? && d.value.arg < |vs| && Convert(d.value, vs[d.value.arg]).Some? {
            PrependTwice(s[i..j], Convert(d.value, vs[d.value.arg]).value,
                         FormatFrom(s, d.value.next, vs, d.value.arg + 1, dict));
          }
        }
      }
    }
  }

  lemma PrependNone(t: string)
    ensures Prepend(t, None) == None
  {
  }

  lemma PercentSign(s: string, i: nat, args: seq<Value>, k: nat, dict: Option<Mapping>)
    requires i < |s| && s[i] == '%'
    ensures FormatFrom(s, i, args, k, dict) == AtPercent(s, i, args, k, dict)
  {
    hide FormatFrom; hide AtPercent;
    assert s[i..i] == "";
    TextThenPercent(s, i, i, args, k, dict);
    PrependNothing(AtPercent(s, i, args, k, dict));
  }

  lemma PrependNothing(rest: Option<string>)
    ensures Prepend("", rest) == rest
  {
    if rest.Some? { assert "" + rest.value == rest.value; }
  }

  /** A character that is not a percent sign stands for itself. */
  lemma PlainCharacter(s: string, i: nat, args: seq<Value>, k: nat, dict: Option<Mapping>)
    requires i < |s| && s[i] != '%'
    ensures FormatFrom(s, i, args, k, dict) == Prepend([s[i]], FormatFrom(s, i + 1, args, k, dict))
  {
    var j := FindPercent(s, i);
    if j == |s| {
      assert FindPercent(s, i + 1) == |s| && s[i..] == [s[i]] + s[i + 1..];
    } else {
      hide FormatFrom; hide AtPercent; hide Prepend;
      assert s[i..j] == [s[i]] + s[i + 1..j];
      TextThenPercent(s, i, j, args, k, dict);
      TextThenPercent(s, i + 1, j, args, k, dict);
      PrependTwice([s[i]], s[i + 1..j], AtPercent(s, j, args, k, dict));
    }
  }

  /** At the end of the string no argument may be left, except for a mapping. */
  lemma EndOfString(s: string, args: seq<Value>, k: nat, dict: Option<Mapping>)
    ensures FormatFrom(s, |s|, args, k, dict) == if k < |args| && dict == None then None else Some("")
  {
    assert FindPercent(s, |s|) == |s| && s[|s|..] == "";
  }

  /** A string without percent signs is its own text, for no arguments or for a mapping. */
  lemma {:induction false} PlainString(s: string, i: nat, args: seq<Value>, k: nat, dict: Option<Mapping>)
    requires i <= |s| && forall j :: i <= j < |s| ==> s[j] != '%'
    ensures FormatFrom(s, i, args, k, dict) == if k < |args| && dict == None then None else Some(s[i..])
    decreases |s| - i
  {
    if i == |s| {
      EndOfString(s, args, k, dict);
    } else {
      PlainString(s, i + 1, args, k, dict);
      PlainCharacter(s, i, args, k, dict);
      assert s[i..] == [s[i]] + s[i + 1..];
    }
  }
}
