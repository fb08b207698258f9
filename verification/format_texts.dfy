/** What the formats of the kernel print, format by format
    (src/sys/libs/libk/stdio/vsnprintf.c). */
module FormatTexts {

  import opened Formatter
  import opened NumberText
  import opened Shared

  // ---------- one conversion ----------

  /** A format that is one directive from its percent sign to its conversion. */
  ghost predicate OneDirectiveOnly(fmt: string, c: char, o: Options) {
    && |fmt| > 1 && fmt[0] == '%' && fmt[|fmt| - 1] == c && IsConversion(c)
    && Directive(fmt, 0, PLAIN) == (|fmt| - 1, o)
  }

  lemma FormatOne(fmt: string, c: char, o: Options, a: Arg)
    requires OneDirectiveOnly(fmt, c, o)
    ensures Format(fmt, 0, [a]) == Piece(c, o, a)
  {
    assert Format(fmt, |fmt|, []) == "";
    hide Directive;
    hide Piece;
  }

  /** Filling up on the left. */
  function Filled(fill: char, w: nat, s: string): string {
    if w > |s| then seq(w - |s|, i => fill) + s else s
  }

  lemma FilledIs(fill: char, w: nat, s: string)
    ensures Padded(fill, w, s) == Filled(fill, w, s)
  {
  }

  /** The digits of a number as an integer conversion prints them. */
  lemma NumberPiece(c: char, o: Options, v: int)
    requires c == 'x' || c == 'X' || c == 'o' || c == 'u' || c == 'd' || c == 'i'
    requires if o.maxInt || o.longLong then -0x8000_0000_0000_0000 <= v < 0x8000_0000_0000_0000
      else -0x8000_0000 <= v < 0x8000_0000
    requires c == 'd' || c == 'i' || v >= 0
    ensures Piece(c, o, Arg(v, "")) ==
      (if c != 'd' && c != 'i' then "" else if v < 0 then "-" else if o.plus then "+" else "")
      + Filled(o.pad, o.width, Text(if v < 0 then -v else v,
          if c == 'x' || c == 'X' then 16 else if c == 'o' then 8 else 10, c == 'X'))
  {
    FetchedIs(o, v);
    MagnitudeIs(c, v);
    FilledIs(o.pad, o.width, Numeral(c, v, o));
    hide Text;
    hide Padded;
    hide Filled;
    hide Fetched;
    hide Magnitude;
  }

  lemma FetchedIs(o: Options, v: int)
    requires if o.maxInt || o.longLong then -0x8000_0000_0000_0000 <= v < 0x8000_0000_0000_0000
      else -0x8000_0000 <= v < 0x8000_0000
    ensures Fetched(o, v) == v
  {
  }

  lemma MagnitudeIs(c: char, v: int)
    requires -0x8000_0000_0000_0000 <= v < 0x8000_0000_0000_0000 && (c == 'd' || c == 'i' || v >= 0)
    ensures Magnitude(c, v) == if v < 0 then -v else v
  {
  }

  /** The number of a base and case that belong to a conversion without a sign. */
  predicate Unsigned(c: char, base: nat, upper: bool) {
    || (c == 'x' && base == 16 && !upper) || (c == 'X' && base == 16 && upper)
    || (c == 'o' && base == 8 && !upper) || (c == 'u' && base == 10 && !upper)
  }

  // ---------- formats without a width ----------

  lemma UnsignedText(fmt: string, c: char, o: Options, v: nat, base: nat, upper: bool)
    requires Unsigned(c, base, upper) && OneDirectiveOnly(fmt, c, o)
    requires v < if o.maxInt || o.longLong then 0x8000_0000_0000_0000 else 0x8000_0000
    ensures Format(fmt, 0, [Arg(v, "")]) == Filled(o.pad, o.width, Text(v, base, upper))
  {
    hide Text;
    hide Format;
    hide Piece;
    hide Filled;
    hide OneDirectiveOnly;
    FormatOne(fmt, c, o, Arg(v, ""));
    NumberPiece(c, o, v);
    assert "" + Filled(o.pad, o.width, Text(v, base, upper)) == Filled(o.pad, o.width, Text(v, base, upper));
  }

  lemma SignedText(fmt: string, c: char, o: Options, v: int)
    requires (c == 'd' || c == 'i') && OneDirectiveOnly(fmt, c, o)
    requires if o.maxInt || o.longLong then -0x8000_0000_0000_0000 <= v < 0x8000_0000_0000_0000
      else -0x8000_0000 <= v < 0x8000_0000
    ensures Format(fmt, 0, [Arg(v, "")]) ==
      (if v < 0 then "-" else if o.plus then "+" else "")
      + Filled(o.pad, o.width, Text(if v < 0 then -v else v, 10, false))
  {
    hide Text;
    hide Format;
    hide Piece;
    hide Filled;
    hide OneDirectiveOnly;
    FormatOne(fmt, c, o, Arg(v, ""));
    NumberPiece(c, o, v);
  }

  lemma NotFilled(fill: char, s: string)
    ensures Filled(fill, 0, s) == s
  {
  }

  /** `%x`, `%X`, `%o` and `%u` of a value below 2^31. */
  lemma UnsignedTexts(v: nat)
    requires v < 0x8000_0000
    ensures Format("%x", 0, [Arg(v, "")]) == Text(v, 16, false)
    ensures Format("%X", 0, [Arg(v, "")]) == Text(v, 16, true)
    ensures Format("%o", 0, [Arg(v, "")]) == Text(v, 8, false)
    ensures Format("%u", 0, [Arg(v, "")]) == Text(v, 10, false)
  {
    hide Text;
    hide Format;
    hide Filled;
    assert OneDirectiveOnly("%x", 'x', PLAIN);
    assert OneDirectiveOnly("%X", 'X', PLAIN);
    assert OneDirectiveOnly("%o", 'o', PLAIN);
    assert OneDirectiveOnly("%u", 'u', PLAIN);
    hide OneDirectiveOnly;
    UnsignedText("%x", 'x', PLAIN, v, 16, false);
    UnsignedText("%X", 'X', PLAIN, v, 16, true);
    UnsignedText("%o", 'o', PLAIN, v, 8, false);
    UnsignedText("%u", 'u', PLAIN, v, 10, false);
    NotFilled(' ', Text(v, 16, false));
    NotFilled(' ', Text(v, 16, true));
    NotFilled(' ', Text(v, 8, false));
    NotFilled(' ', Text(v, 10, false));
  }

  /** `%d` and `%i` of any 32-bit value: a minus exactly before negative ones, and a
      plus before all others exactly if asked for. */
  lemma SignedTexts(v: int)
    requires -0x8000_0000 <= v < 0x8000_0000
    ensures var minus, digits := if v < 0 then "-" else "", Text(if v < 0 then -v else v, 10, false);
      && Format("%d", 0, [Arg(v, "")]) == minus + digits
      && Format("%i", 0, [Arg(v, "")]) == minus + digits
    ensures var sign, digits := if v < 0 then "-" else "+", Text(if v < 0 then -v else v, 10, false);
      && Format("%+d", 0, [Arg(v, "")]) == sign + digits
      && Format("%+i", 0, [Arg(v, "")]) == sign + digits
  {
    hide Text;
    hide Format;
    hide Filled;
    var plus := PLAIN.(plus := true);
    assert OneDirectiveOnly("%d", 'd', PLAIN);
    assert OneDirectiveOnly("%i", 'i', PLAIN);
    assert Directive("%+d", 1, plus) == (2, plus) && Directive("%+i", 1, plus) == (2, plus);
    assert OneDirectiveOnly("%+d", 'd', plus);
    assert OneDirectiveOnly("%+i", 'i', plus);
    hide OneDirectiveOnly;
    SignedText("%d", 'd', PLAIN, v);
    SignedText("%i", 'i', PLAIN, v);
    SignedText("%+d", 'd', plus, v);
    SignedText("%+i", 'i', plus, v);
    NotFilled(' ', Text(if v < 0 then -v else v, 10, false));
  }

  lemma LongLong(fmt: string, c: char)
    requires fmt == "%ll" + [c] && IsConversion(c)
    ensures OneDirectiveOnly(fmt, c, PLAIN.(longLong := true))
  {
    var one, two := PLAIN.(longInt := true), PLAIN.(longLong := true);
    assert Directive(fmt, 2, two) == (3, two);
    assert Directive(fmt, 1, one) == Directive(fmt, 2, two);
  }

  lemma MaxInt(fmt: string, c: char)
    requires fmt == "%j" + [c] && IsConversion(c)
    ensures OneDirectiveOnly(fmt, c, PLAIN.(maxInt := true))
  {
    assert Directive(fmt, 1, PLAIN.(maxInt := true)) == (2, PLAIN.(maxInt := true));
  }

  /** With `j` or `ll` the same for 64-bit values. */
  lemma WideTexts(v: nat)
    requires v < 0x8000_0000_0000_0000
    ensures Format("%jx", 0, [Arg(v, "")]) == Format("%llx", 0, [Arg(v, "")]) == Text(v, 16, false)
    ensures Format("%jX", 0, [Arg(v, "")]) == Format("%llX", 0, [Arg(v, "")]) == Text(v, 16, true)
    ensures Format("%jo", 0, [Arg(v, "")]) == Format("%llo", 0, [Arg(v, "")]) == Text(v, 8, false)
    ensures Format("%ju", 0, [Arg(v, "")]) == Format("%llu", 0, [Arg(v, "")]) == Text(v, 10, false)
  {
    hide Text;
    hide Format;
    hide Filled;
    hide OneDirectiveOnly;
    WideText("%jx", "%llx", 'x', v, 16, false);
    WideText("%jX", "%llX", 'X', v, 16, true);
    WideText("%jo", "%llo", 'o', v, 8, false);
    WideText("%ju", "%llu", 'u', v, 10, false);
  }

  lemma WideText(j: string, ll: string, c: char, v: nat, base: nat, upper: bool)
    requires j == "%j" + [c] && ll == "%ll" + [c] && Unsigned(c, base, upper) && v < 0x8000_0000_0000_0000
    ensures Format(j, 0, [Arg(v, "")]) == Format(ll, 0, [Arg(v, "")]) == Text(v, base, upper)
  {
    hide Text;
    hide Format;
    hide Filled;
    hide OneDirectiveOnly;
    MaxInt(j, c);
    LongLong(ll, c);
    UnsignedText(j, c, PLAIN.(maxInt := true), v, base, upper);
    UnsignedText(ll, c, PLAIN.(longLong := true), v, base, upper);
    NotFilled(' ', Text(v, base, upper));
  }

  lemma WideSignedTexts(v: int)
    requires -0x8000_0000_0000_0000 <= v < 0x8000_0000_0000_0000
    ensures var minus, digits := if v < 0 then "-" else "", Text(if v < 0 then -v else v, 10, false);
      && Format("%jd", 0, [Arg(v, "")]) == Format("%ji", 0, [Arg(v, "")]) == minus + digits
      && Format("%lld", 0, [Arg(v, "")]) == Format("%lli", 0, [Arg(v, "")]) == minus + digits
  {
    hide Text;
    hide Format;
    hide Filled;
    hide OneDirectiveOnly;
    MaxInt("%jd", 'd');
    MaxInt("%ji", 'i');
    LongLong("%lld", 'd');
    LongLong("%lli", 'i');
    SignedText("%jd", 'd', PLAIN.(maxInt := true), v);
    SignedText("%ji", 'i', PLAIN.(maxInt := true), v);
    SignedText("%lld", 'd', PLAIN.(longLong := true), v);
    SignedText("%lli", 'i', PLAIN.(longLong := true), v);
    NotFilled(' ', Text(if v < 0 then -v else v, 10, false));
  }

  /** `%s` is the text, `%c` the character, and `%p` eight digits, sixteen with `j`. */
  lemma OtherTexts(s: CString, v: nat)
    requires v < 0x8000_0000
    ensures Format("%s", 0, [Arg(0, s)]) == s
    ensures v < 256 ==> Format("%c", 0, [Arg(v, "")]) == [v as char]
    ensures Format("%p", 0, [Arg(v, "")]) == "0x" + Filled('0', 8, Text(v, 16, true))
    ensures Format("%jp", 0, [Arg(v, "")]) == "0x" + Filled('0', 16, Text(v, 16, true))
  {
    hide Text;
    hide Format;
    assert OneDirectiveOnly("%s", 's', PLAIN);
    assert OneDirectiveOnly("%c", 'c', PLAIN);
    assert OneDirectiveOnly("%p", 'p', PLAIN);
    MaxInt("%jp", 'p');
    hide OneDirectiveOnly;
    FormatOne("%s", 's', PLAIN, Arg(0, s));
    FormatOne("%c", 'c', PLAIN, Arg(v, ""));
    FormatOne("%p", 'p', PLAIN, Arg(v, ""));
    FormatOne("%jp", 'p', PLAIN.(maxInt := true), Arg(v, ""));
    PointerDigits(PLAIN, v);
    PointerDigits(PLAIN.(maxInt := true), v);
    assert Piece('s', PLAIN, Arg(0, s)) == s;
    assert Piece('c', PLAIN, Arg(v, "")) == [(v % 256) as char];
    hide Piece;
    hide Filled;
  }

  lemma PointerDigits(o: Options, v: nat)
    requires v < 0x8000_0000
    ensures Piece('p', o, Arg(v, "")) == "0x" + Filled('0', if o.maxInt then 16 else 8, Text(v, 16, true))
  {
    PointerPiece(o, v);
    FetchedIs(o, v);
    MagnitudeIs('p', v);
    FilledIs('0', if o.maxInt then 16 else 8, Text(v, 16, true));
    hide Text;
    hide Piece;
    hide Padded;
    hide Filled;
    hide Fetched;
    hide Magnitude;
  }

  // ---------- formats put together ----------

  /** The format behind a text is read as if it stood alone. */
  lemma {:induction false} DirectiveBehind(a: string, b: string, k: nat, o: Options)
    requires k < |b|
    ensures Directive(a + b, |a| + k, o) == (|a| + Directive(b, k, o).0, Directive(b, k, o).1)
    decreases |b| - k
  {
    assert (a + b)[|a|..] == b;
    assert k + 1 < |b| ==> (a + b)[|a| + (k + 1)] == b[k + 1];
    if k + 1 < |b| && IsFlag(b[k + 1]) { DirectiveBehind(a, b, k + 1, WithFlag(o, b[k + 1])); }
  }

  lemma ItemBehind(a: string, b: string, k: nat)
    requires k < |b|
    ensures ItemAt(a + b, |a| + k) == (ItemAt(b, k).0, |a| + ItemAt(b, k).1)
  {
    DirectiveBehind(a, b, k, PLAIN);
    assert forall i: nat :: i < |b| ==> (a + b)[|a| + i] == b[i];
    hide Directive;
  }

  lemma {:induction false} FormatBehind(a: string, b: string, k: nat, args: seq<Arg>)
    requires k <= |b|
    ensures Format(a + b, |a| + k, args) == Format(b, k, args)
    decreases |b| - k
  {
    hide ItemAt;
    hide ItemText;
    if k < |b| {
      var (i, q) := ItemAt(b, k);
      ItemBehind(a, b, k);
      FormatBehind(a, b, q, ItemRest(i, args));
    }
  }

  lemma FormatFirst(fmt: string, args: seq<Arg>)
    requires fmt != "" && fmt[0] != '%'
    ensures Format(fmt, 0, args) == [fmt[0]] + Format(fmt, 1, args)
  {
    assert ItemAt(fmt, 0) == (Char(fmt[0]), 1);
  }

  /** Text without a percent sign is copied. */
  lemma {:induction false} TextCopied(a: string, rest: string, args: seq<Arg>)
    requires '%' !in a
    ensures Format(a + rest, 0, args) == a + Format(rest, 0, args)
  {
    hide Format;
    if a == "" {
      assert a + rest == rest;
    } else {
      var b := a[1..];
      var tail := b + rest;
      assert a == [a[0]] + b && a + rest == [a[0]] + tail;
      FormatFirst(a + rest, args);
      FormatBehind([a[0]], tail, 0, args);
      TextCopied(b, rest, args);
      Regroup3([a[0]], b, Format(rest, 0, args));
    }
  }

  lemma {:induction false} DirectiveBefore(d: string, rest: string, k: nat, o: Options)
    requires k < |d| && Directive(d, k, o).0 < |d|
    ensures Directive(d + rest, k, o) == Directive(d, k, o)
    decreases |d| - k
  {
    if k + 1 < |d| && IsFlag(d[k + 1]) { DirectiveBefore(d, rest, k + 1, WithFlag(o, d[k + 1])); }
  }

  /** A directive takes one argument, and what follows takes the others. */
  lemma DirectiveThen(d: string, c: char, o: Options, rest: string, a: Arg, args: seq<Arg>)
    requires OneDirectiveOnly(d, c, o)
    ensures Format(d + rest, 0, [a] + args) == Format(d, 0, [a]) + Format(rest, 0, args)
  {
    FormatOne(d, c, o, a);
    DirectiveBefore(d, rest, 0, PLAIN);
    assert (d + rest)[|d| - 1] == c;
    assert ItemAt(d + rest, 0) == (Field(c, o), |d|);
    FormatBehind(d, rest, 0, args);
    assert ([a] + args)[1..] == args;
    hide Directive;
    hide Piece;
  }

  // ---------- widths ----------

  lemma {:induction false} ValueGrows(s: string, k: nat)
    requires k <= |s| && forall i: nat :: i < |s| ==> IsDigit(s[i])
    ensures Value(s[..k], 10) <= Value(s, 10)
    decreases |s|
  {
    if k < |s| {
      var front := s[..|s| - 1];
      assert s[..k] == front[..k] && s == front + [s[|s| - 1]];
      ValueSnoc(front, s[|s| - 1], 10);
      ValueGrows(front, k);
    } else {
      assert s[..k] == s;
    }
  }

  /** The digits of a width are read one after the other. */
  lemma {:induction false} WidthRead(fmt: string, fp: nat, d: string, k: nat, o: Options)
    requires fp + |d| < |fmt| && fmt[fp + 1..fp + 1 + |d|] == d && k <= |d| && d != "" && d[0] != '0' && o.width == 0
    requires (forall i: nat :: i < |d| ==> IsDigit(d[i])) && Value(d, 10) < SIZES
    ensures Directive(fmt, fp, o) == Directive(fmt, fp + k, o.(width := Value(d[..k], 10)))
    ensures k > 0 ==> Value(d[..k], 10) > 0
  {
    if k == 0 {
      assert o.(width := 0) == o;
    } else {
      hide Value;
      hide Directive;
      hide WithFlag;
      hide DigitValue;
      hide IsSeparator;
      hide IsFlag;
      WidthRead(fmt, fp, d, k - 1, o);
      ValueGrows(d, k);
      var a := d[k - 1];
      assert d[..k] == d[..k - 1] + [a] && fmt[fp + k] == a by {
        assert fmt[fp + 1..fp + 1 + |d|][k - 1] == a;
      }
      ValueSnoc(d[..k - 1], a, 10);
      NoSeparator(a, false);
      var was, next := o.(width := Value(d[..k - 1], 10)), o.(width := Value(d[..k], 10));
      DigitStep(was, a, next);
      FlagStep(fmt, fp + k - 1, was);
    }
  }

  lemma FlagStep(fmt: string, fp: nat, o: Options)
    requires fp + 1 < |fmt| && IsFlag(fmt[fp + 1])
    ensures Directive(fmt, fp, o) == Directive(fmt, fp + 1, WithFlag(o, fmt[fp + 1]))
  {
  }

  lemma DigitStep(o: Options, a: char, next: Options)
    requires IsDigit(a) && next == o.(width := o.width * 10 + DigitValue(a)) && next.width < SIZES
    requires o.width == 0 ==> a != '0'
    ensures IsFlag(a) && WithFlag(o, a) == next && next.width > 0
  {
  }

  /** A width in decimal, with or without a zero before it. */
  lemma WidthFormat(fmt: string, zero: bool, w: nat, c: char)
    requires 0 < w < SIZES && IsConversion(c)
    requires fmt == (if zero then "%0" else "%") + Text(w, 10, false) + [c]
    ensures OneDirectiveOnly(fmt, c, PLAIN.(width := w, pad := if zero then '0' else ' '))
  {
    hide Text;
    hide Value;
    hide WithFlag;
    hide Directive;
    var d, fp := Text(w, 10, false), if zero then 1 else 0;
    var o := PLAIN.(pad := if zero then '0' else ' ');
    WidthDigits(w);
    assert |fmt| == fp + 1 + |d| + 1 && fmt[fp + 1..fp + 1 + |d|] == d && fmt[|fmt| - 1] == c;
    assert d[..|d|] == d;
    WidthRead(fmt, fp, d, |d|, o);
    ConversionAhead(fmt, fp + |d|, o.(width := w));
    if zero { ZeroFlag(fmt); }
  }

  lemma WidthDigits(w: nat)
    requires w > 0
    ensures var d := Text(w, 10, false);
      d != "" && d[0] != '0' && Value(d, 10) == w && forall i: nat :: i < |d| ==> IsDigit(d[i])
  {
    TextValue(w, 10, false);
    NoPrefix(w, 10, false);
    TextShape(w, 10, false);
    hide Text;
    hide Value;
  }

  lemma ConversionAhead(fmt: string, fp: nat, o: Options)
    requires fp + 2 == |fmt| && IsConversion(fmt[fp + 1])
    ensures Directive(fmt, fp, o) == (fp + 1, o)
  {
  }

  lemma ZeroFlag(fmt: string)
    requires |fmt| > 1 && fmt[1] == '0'
    ensures Directive(fmt, 0, PLAIN) == Directive(fmt, 1, PLAIN.(pad := '0'))
  {
  }

  /** A width pads the digits on the left, with spaces, and with zeros after a `0`;
      the sign stands before the padding and is not counted. */
  lemma WidthTexts(w: nat, zero: bool, v: int)
    requires 0 < w < SIZES && -0x8000_0000 <= v < 0x8000_0000
    ensures var dir, fill := (if zero then "%0" else "%") + Text(w, 10, false), if zero then '0' else ' ';
      && (v >= 0 ==>
        && Format(dir + "x", 0, [Arg(v, "")]) == Filled(fill, w, Text(v, 16, false))
        && Format(dir + "X", 0, [Arg(v, "")]) == Filled(fill, w, Text(v, 16, true))
        && Format(dir + "o", 0, [Arg(v, "")]) == Filled(fill, w, Text(v, 8, false))
        && Format(dir + "u", 0, [Arg(v, "")]) == Filled(fill, w, Text(v, 10, false)))
      && Format(dir + "d", 0, [Arg(v, "")]) == Format(dir + "i", 0, [Arg(v, "")])
        == (if v < 0 then "-" else "") + Filled(fill, w, Text(if v < 0 then -v else v, 10, false))
  {
    hide Text;
    hide Format;
    hide Filled;
    hide OneDirectiveOnly;
    var dir := (if zero then "%0" else "%") + Text(w, 10, false);
    var o := PLAIN.(width := w, pad := if zero then '0' else ' ');
    WidthFormat(dir + "x", zero, w, 'x');
    WidthFormat(dir + "X", zero, w, 'X');
    WidthFormat(dir + "o", zero, w, 'o');
    WidthFormat(dir + "u", zero, w, 'u');
    WidthFormat(dir + "d", zero, w, 'd');
    WidthFormat(dir + "i", zero, w, 'i');
    if v >= 0 {
      UnsignedText(dir + "x", 'x', o, v, 16, false);
      UnsignedText(dir + "X", 'X', o, v, 16, true);
      UnsignedText(dir + "o", 'o', o, v, 8, false);
      UnsignedText(dir + "u", 'u', o, v, 10, false);
    }
    SignedText(dir + "d", 'd', o, v);
    SignedText(dir + "i", 'i', o, v);
  }

  /** Strings are padded with spaces in any case. */
  lemma WidthString(w: nat, zero: bool, s: CString)
    requires 0 < w < SIZES
    ensures var dir := (if zero then "%0" else "%") + Text(w, 10, false);
      Format(dir + "s", 0, [Arg(0, s)]) == Filled(' ', w, s)
  {
    var dir := (if zero then "%0" else "%") + Text(w, 10, false);
    var o := PLAIN.(width := w, pad := if zero then '0' else ' ');
    hide Text;
    hide Format;
    hide OneDirectiveOnly;
    WidthFormat(dir + "s", zero, w, 's');
    FormatOne(dir + "s", 's', o, Arg(0, s));
    FilledIs(' ', w, s);
  }
}
