/** Printing a number in some base (src/sys/libs/libk/stdio/vsnprintf.c) and
    reading one back (src/sys/kernel/src/parse.cpp). */
module NumberText {

  const WORDS: nat := 0x1_0000_0000_0000_0000

  // ---------- printing ----------

  function Div(val: nat, base: nat): (q: nat)
    requires base >= 2
    ensures q <= val && (val > 0 ==> q < val)
  {
    DivLess(val, base);
    val / base
  }

  function Mod(val: nat, base: nat): (r: nat)
    requires base >= 2
    ensures r < base
  {
    val % base
  }

  lemma DivLess(val: nat, base: nat)
    requires base >= 2
    ensures 0 <= val / base <= val && (val > 0 ==> val / base < val)
  {
    var q := val / base;
    assert val == q * base + val % base;
    assert q * base >= 2 * q;
  }

  /** Letters continue the digits, in any base up to 36. */
  function DigitChar(d: nat, upper: bool): char
    requires d < 36
  {
    if d >= 10 then (d - 10) as char + (if upper then 'A' else 'a')
    else d as char + '0'
  }

  /** The digits of a number, the most significant one first. */
  function Text(val: nat, base: nat, upper: bool): (s: string)
    requires 2 <= base <= 36
    ensures s != []
    decreases val
  {
    var last := [DigitChar(Mod(val, base), upper)];
    if Div(val, base) == 0 then last else Text(Div(val, base), base, upper) + last
  }

  /** The digits of the bases up to 36. */
  function Alphabet(upper: bool): string {
    if upper then "0123456789ABCDEFGHIJKLMNOPQRSTUVWXYZ" else "0123456789abcdefghijklmnopqrstuvwxyz"
  }

  lemma DigitChars(d: nat, upper: bool)
    requires d < 36
    ensures |Alphabet(upper)| == 36 && DigitChar(d, upper) == Alphabet(upper)[d]
  {
  }

  lemma TextStep(val: nat, base: nat, upper: bool)
    requires 2 <= base <= 36
    ensures var q, c := Div(val, base), DigitChar(Mod(val, base), upper);
      Text(val, base, upper) == if q == 0 then [c] else Text(q, base, upper) + [c]
  {
    hide Div;
    hide Mod;
    hide DigitChar;
  }

  /** All characters are digits in the case asked for. */
  lemma {:induction false} TextDigits(val: nat, base: nat, upper: bool)
    requires 2 <= base <= 36
    ensures forall a :: a in Text(val, base, upper) ==> a in Alphabet(upper)
    decreases val
  {
    hide Text;
    hide Mod;
    hide Alphabet;
    hide DigitChar;
    TextStep(val, base, upper);
    DigitChars(Mod(val, base), upper);
    assert DigitChar(Mod(val, base), upper) in Alphabet(upper);
    var q := Div(val, base);
    hide Div;
    if q > 0 { TextDigits(q, base, upper); }
  }

  /** The first one is no zero, unless the number is. */
  lemma {:induction false} TextShape(val: nat, base: nat, upper: bool)
    requires 2 <= base <= 36
    ensures (Text(val, base, upper)[0] == '0' <==> val == 0) && (val == 0 ==> Text(val, base, upper) == "0")
    decreases val
  {
    hide Text;
    hide DigitChar;
    TextStep(val, base, upper);
    DivMod(val, base);
    var q, d := Div(val, base), Mod(val, base);
    ZeroDigit(d, upper);
    hide Div;
    hide Mod;
    if q > 0 { TextShape(q, base, upper); }
  }

  lemma ZeroDigit(d: nat, upper: bool)
    requires d < 36
    ensures DigitChar(d, upper) == '0' <==> d == 0
  {
  }

  /** The part of a text that fits: its last `n` characters. */
  function Last(s: string, n: nat): string {
    if |s| <= n then s else s[|s| - n..]
  }

  /** One digit less of the number is one digit less of its text. */
  lemma LastStep(v: nat, base: nat, upper: bool, i: nat)
    requires 2 <= base <= 36
    ensures var c, q := DigitChar(Mod(v, base), upper), Div(v, base);
      && (q == 0 || i == 0 ==> Last(Text(v, base, upper), i + 1) == [c])
      && (q != 0 ==> Last(Text(v, base, upper), i + 1) == Last(Text(q, base, upper), i) + [c])
  {
    if Div(v, base) != 0 {
      LastSnoc(Text(Div(v, base), base, upper), DigitChar(Mod(v, base), upper), i);
    }
  }

  lemma LastSnoc(s: string, c: char, n: nat)
    ensures Last(s + [c], n + 1) == Last(s, n) + [c]
  {
  }

  /** The digits of `v` that fit into `room`, and then `done`, are the whole text. */
  predicate Completes(whole: string, v: nat, base: nat, upper: bool, room: nat, done: string)
    requires 2 <= base <= 36
  {
    whole == Last(Text(v, base, upper), room) + done
  }

  lemma CompletesStep(whole: string, v: nat, base: nat, upper: bool, i: nat, done: string)
    requires 2 <= base <= 36 && Completes(whole, v, base, upper, i + 1, done)
    ensures var c, q := DigitChar(Mod(v, base), upper), Div(v, base);
      if q == 0 || i == 0 then whole == [c] + done else Completes(whole, q, base, upper, i, [c] + done)
  {
    hide Text;
    hide Last;
    hide Div;
    hide Mod;
    hide DigitChar;
    var c, q := DigitChar(Mod(v, base), upper), Div(v, base);
    LastStep(v, base, upper, i);
    if q != 0 && i != 0 {
      Regroup(Last(Text(q, base, upper), i), c, done);
    }
  }

  lemma Regroup(rest: string, c: char, done: string)
    ensures (rest + [c]) + done == rest + ([c] + done)
  {
  }

  method PutDigit(buf: array<char>, i: nat, end: nat, c: char)
    requires i < end < buf.Length
    modifies buf
    ensures buf[i..end] == [c] + old(buf[i + 1..end])
    ensures buf[end] == old(buf[end]) && buf[..i] == old(buf[..i])
  {
    buf[i] := c;
  }

  /** Writes backwards from the end of the buffer, and stops at its start if the
      number is longer. */
  method BaseToAscii(val: nat, base: nat, upper: bool, buf: array<char>) returns (start: nat)
    requires 2 <= base <= 36 && buf.Length >= 2
    modifies buf
    ensures start < buf.Length - 1 && buf[start..buf.Length - 1] == Last(Text(val, base, upper), buf.Length - 1)
    ensures buf[buf.Length - 1] == '\0'
    ensures buf[..start] == old(buf[..start])
  {
    var end := buf.Length - 1;
    ghost var was := buf[..];
    buf[end] := '\0';
    var i := end - 1;
    var v := val;
    ghost var whole := Last(Text(val, base, upper), end);
    assert Completes(whole, v, base, upper, i + 1, buf[i + 1..end]);
    hide Completes;
    hide Div;
    hide Mod;
    hide DigitChar;
    hide Text;
    hide Last;
    while true
      invariant 0 <= i < end && buf[end] == '\0' && buf[..i + 1] == was[..i + 1]
      invariant Completes(whole, v, base, upper, i + 1, buf[i + 1..end])
      decreases i
    {
      var c := DigitChar(Mod(v, base), upper);
      CompletesStep(whole, v, base, upper, i, buf[i + 1..end]);
      v := Div(v, base);
      var cont := i > 0;
      PutDigit(buf, i, end, c);
      if !cont || v == 0 {
        return i;
      }
      i := i - 1;
    }
  }

  // ---------- reading ----------

  datatype Error = NotFound | InvalidFormat

  datatype Result = Ok(value: nat) | Err(error: Error)

  predicate IsDigit(a: char) { '0' <= a <= '9' }

  predicate IsSeparator(a: char) { a == '_' || a == '\'' }

  function DigitValue(a: char): nat {
    if IsDigit(a) then (a - '0') as nat
    else if 'A' <= a <= 'F' then (a - 'A') as nat + 10
    else if 'a' <= a <= 'f' then (a - 'a') as nat + 10
    else 0
  }

  predicate IsDigitOf(a: char, isHex: bool) {
    IsDigit(a) || (isHex && ('A' <= a <= 'F' || 'a' <= a <= 'f'))
  }

  /** Digits of the base, and separators. */
  predicate WellFormed(s: string, isHex: bool) {
    forall k :: 0 <= k < |s| ==> IsDigitOf(s[k], isHex) || IsSeparator(s[k])
  }

  function Base(isHex: bool): nat { if isHex then 16 else 10 }

  /** The number that the digits denote; separators count for nothing. */
  function Value(s: string, base: nat): nat {
    if s == [] then 0
    else
      var front, a := s[..|s| - 1], s[|s| - 1];
      if IsSeparator(a) then Value(front, base) else Value(front, base) * base + DigitValue(a)
  }

  /** Hex is announced by `0x`, with something behind it, or by a dollar sign. */
  function Prefix(s: string): (nat, bool)
    requires s != []
  {
    if |s| > 2 && s[0] == '0' && (s[1] == 'x' || s[1] == 'X') then (2, true)
    else if s[0] == '$' then (1, true)
    else (0, false)
  }

  /** What a text means: the number its digits denote, cut to a machine word. */
  function Meaning(s: string): Result {
    if s == [] then Err(NotFound)
    else
      var (start, isHex) := Prefix(s);
      if WellFormed(s[start..], isHex) then Ok(Value(s[start..], Base(isHex)) % WORDS) else Err(InvalidFormat)
  }

  lemma WrapStep(v: nat, base: nat, d: nat)
    requires base > 0
    ensures ((v % WORDS) * base % WORDS + d) % WORDS == (v * base + d) % WORDS
  {
    var q, r := v / WORDS, v % WORDS;
    assert v == q * WORDS + r;
    assert v * base == (q * base) * WORDS + r * base by { Rearrange(q, r, base); }
    CutFirst(r * base, d);
    CutFirst(r * base, q * base * WORDS + d);
    assert v * base + d == r * base + ((q * base) * WORDS + d);
    Whole(r * base + d, q * base);
  }

  lemma Rearrange(q: nat, r: nat, base: nat)
    ensures (q * WORDS + r) * base == (q * base) * WORDS + r * base
  {
  }

  /** A whole number of words more makes no difference. */
  lemma Whole(a: nat, q: nat)
    ensures (a + q * WORDS) % WORDS == a % WORDS
  {
  }

  lemma CutFirst(a: nat, d: nat)
    ensures (a % WORDS + d) % WORDS == (a + d) % WORDS
  {
    Whole(a % WORDS + d, a / WORDS);
  }

  function TimesWord(a: nat, base: nat): nat { a * base % WORDS }

  function PlusWord(a: nat, d: nat): nat { (a + d) % WORDS }

  /** The digits read so far, and the word they have made. */
  ghost predicate HaveRead(s: string, isHex: bool, acc: nat) {
    WellFormed(s, isHex) && acc == Value(s, Base(isHex)) % WORDS
  }

  lemma ReadStep(s: string, a: char, isHex: bool, acc: nat)
    requires HaveRead(s, isHex, acc)
    ensures IsDigitOf(a, isHex) ==> HaveRead(s + [a], isHex, PlusWord(TimesWord(acc, Base(isHex)), DigitValue(a)))
    ensures !IsDigitOf(a, isHex) && IsSeparator(a) ==> HaveRead(s + [a], isHex, acc)
  {
    ValueSnoc(s, a, Base(isHex));
    WrapStep(Value(s, Base(isHex)), Base(isHex), DigitValue(a));
    NoSeparator(a, isHex);
    hide Value;
    hide DigitValue;
    hide IsDigitOf;
    hide IsSeparator;
  }

  lemma BadText(s: string, k: nat, isHex: bool)
    requires k < |s| && !IsDigitOf(s[k], isHex) && !IsSeparator(s[k])
    ensures !WellFormed(s, isHex)
  {
  }

  /** Products and sums wrap around as machine words do. */
  method ParseInt(str: string) returns (r: Result)
    ensures r == Meaning(str)
  {
    if str == [] {
      return Err(NotFound);
    }
    var max := |str|;
    var isHex := max > 2 && str[0] == '0' && (str[1] == 'x' || str[1] == 'X');
    var index, acc: nat := 0, 0;
    if isHex {
      index := index + 2;
    } else if str[0] == '$' {
      isHex := true;
      index := index + 1;
    }
    ghost var start := index;
    assert HaveRead(str[start..index], isHex, acc) by { ValueEmpty(Base(isHex)); }
    assert (start, isHex) == Prefix(str);
    hide HaveRead;
    hide Prefix;
    hide IsDigitOf;
    hide IsSeparator;
    hide DigitValue;
    hide WellFormed;
    hide Value;
    hide Base;
    hide TimesWord;
    hide PlusWord;
    while index < max
      invariant start <= index <= max && HaveRead(str[start..index], isHex, acc)
    {
      var a := str[index];
      ReadStep(str[start..index], a, isHex, acc);
      assert str[start..index + 1] == str[start..index] + [a];
      if IsDigitOf(a, isHex) {
        acc := TimesWord(acc, Base(isHex));
        acc := PlusWord(acc, DigitValue(a));
      } else if !IsSeparator(a) {
        BadText(str[start..], index - start, isHex);
        return Err(InvalidFormat);
      }
      index := index + 1;
    }
    AllRead(str, start, isHex, acc);
    return Ok(acc);
  }

  lemma AllRead(s: string, start: nat, isHex: bool, acc: nat)
    requires start <= |s| && HaveRead(s[start..|s|], isHex, acc)
    ensures WellFormed(s[start..], isHex) && acc == Value(s[start..], Base(isHex)) % WORDS
  {
    assert s[start..] == s[start..|s|];
  }

  lemma ValueEmpty(base: nat)
    ensures Value("", base) == 0
  {
  }

  lemma ValueSnoc(s: string, a: char, base: nat)
    ensures Value(s + [a], base) == if IsSeparator(a) then Value(s, base) else Value(s, base) * base + DigitValue(a)
  {
    assert (s + [a])[..|s|] == s;
  }

  lemma NoSeparator(a: char, isHex: bool)
    ensures IsDigitOf(a, isHex) ==> !IsSeparator(a)
  {
  }

  // ---------- which characters count ----------

  lemma ValueTwo(a: char, b: char, base: nat)
    requires !IsSeparator(a)
    ensures Value([a], base) == DigitValue(a)
    ensures Value([a, b], base) == if IsSeparator(b) then DigitValue(a) else DigitValue(a) * base + DigitValue(b)
  {
    ValueEmpty(base);
    assert "" + [a] == [a] && [a] + [b] == [a, b];
    ValueSnoc("", a, base);
    ValueSnoc([a], b, base);
    hide Value;
  }

  /** In decimal text: digits, underscores and quotes; everything else is refused,
      letters included. */
  lemma DecimalCharacter(c: char)
    ensures Meaning(['1', c]) ==
      if '0' <= c <= '9' then Ok(10 + (c as int - '0' as int))
      else if c == '_' || c == '\'' then Ok(1)
      else Err(InvalidFormat)
  {
    ValueTwo('1', c, 10);
    assert Prefix(['1', c]) == (0, false) && ['1', c][0..] == ['1', c];
    hide Value;
    hide Prefix;
  }

  /** In hexadecimal text, behind `0x`: the letters up to `f` in either case as well. */
  lemma HexCharacter(c: char)
    ensures Meaning(['0', 'x', '1', c]) ==
      if '0' <= c <= '9' then Ok(16 + (c as int - '0' as int))
      else if 'A' <= c <= 'F' then Ok(26 + (c as int - 'A' as int))
      else if 'a' <= c <= 'f' then Ok(26 + (c as int - 'a' as int))
      else if c == '_' || c == '\'' then Ok(1)
      else Err(InvalidFormat)
  {
    var s := ['0', 'x', '1', c];
    ValueTwo('1', c, 16);
    assert Prefix(s) == (2, true) && s[2..] == ['1', c];
    hide Value;
    hide Prefix;
  }

  lemma MeaningAt(s: string, start: nat, isHex: bool, tail: string)
    requires s != "" && Prefix(s) == (start, isHex) && s[start..] == tail
    ensures Meaning(s) ==
      if WellFormed(tail, isHex) then Ok(Value(tail, if isHex then 16 else 10) % WORDS) else Err(InvalidFormat)
  {
    hide Value;
    hide Prefix;
    hide WellFormed;
  }

  /** Texts that are no numbers: without a digit behind it `0x` is no prefix. */
  lemma NoNumbers()
    ensures Meaning("") == Err(NotFound) && Meaning("0x") == Err(InvalidFormat) && Meaning("f") == Err(InvalidFormat)
  {
    MeaningAt("0x", 0, false, "0x");
    MeaningAt("f", 0, false, "f");
    assert "0x"[1] == 'x' && "f"[0] == 'f';
    hide Value;
    hide Meaning;
  }

  /** Odd texts that are: a dollar sign alone is a prefix, and a separator alone is
      zero. */
  lemma OddNumbers()
    ensures Meaning("$") == Ok(0) && Meaning("_") == Ok(0) && Meaning("$f") == Ok(15) && Meaning("0Xf") == Ok(15)
  {
    ValueEmpty(10);
    ValueEmpty(16);
    assert "" + "_" == "_";
    ValueSnoc("", '_', 10);
    ValueTwo('f', 'f', 16);
    hide Value;
    hide Meaning;
    MeaningAt("$", 1, true, "");
    MeaningAt("_", 0, false, "_");
    MeaningAt("$f", 1, true, "f");
    MeaningAt("0Xf", 2, true, "f");
  }

  // ---------- there and back ----------

  lemma DigitBack(d: nat, upper: bool)
    requires d < 16
    ensures DigitValue(DigitChar(d, upper)) == d && !IsSeparator(DigitChar(d, upper))
    ensures IsDigitOf(DigitChar(d, upper), true) && (d < 10 ==> IsDigitOf(DigitChar(d, upper), false))
  {
  }

  lemma DivMod(val: nat, base: nat)
    requires base >= 2
    ensures Div(val, base) * base + Mod(val, base) == val
  {
  }

  lemma {:induction false} TextValue(val: nat, base: nat, upper: bool)
    requires 2 <= base <= 16
    ensures Value(Text(val, base, upper), base) == val
    ensures WellFormed(Text(val, base, upper), true) && (base <= 10 ==> WellFormed(Text(val, base, upper), false))
    decreases val
  {
    var q, d := Div(val, base), Mod(val, base);
    DivMod(val, base);
    DigitBack(d, upper);
    hide Div;
    hide Mod;
    hide DigitChar;
    hide DigitValue;
    hide IsDigitOf;
    hide IsSeparator;
    if q == 0 {
      ValueEmpty(base);
      assert "" + [DigitChar(d, upper)] == [DigitChar(d, upper)];
      ValueSnoc("", DigitChar(d, upper), base);
    } else {
      TextValue(q, base, upper);
      ValueSnoc(Text(q, base, upper), DigitChar(d, upper), base);
    }
    hide Value;
  }

  lemma {:induction false} NoPrefix(val: nat, base: nat, upper: bool)
    requires 2 <= base <= 10
    ensures forall k :: 0 <= k < |Text(val, base, upper)| ==> IsDigit(Text(val, base, upper)[k])
    decreases val
  {
    if Div(val, base) > 0 { NoPrefix(Div(val, base), base, upper); }
  }

  /** Every 64-bit value printed in decimal reads back as itself. */
  lemma DecimalReadsBack(val: nat, upper: bool)
    requires val < WORDS
    ensures Meaning(Text(val, 10, upper)) == Ok(val)
  {
    hide Text;
    hide Meaning;
    hide Value;
    TextValue(val, 10, upper);
    NoPrefix(val, 10, upper);
    DecimalMeaning(Text(val, 10, upper));
  }

  lemma DecimalMeaning(s: string)
    requires s != "" && forall k :: 0 <= k < |s| ==> IsDigit(s[k])
    ensures Meaning(s) == Ok(Value(s, 10) % WORDS)
  {
    hide Value;
    assert IsDigit(s[0]) && (|s| > 1 ==> IsDigit(s[1]));
    assert Prefix(s) == (0, false) && s[0..] == s;
    hide Prefix;
  }

  /** So does every one printed in hexadecimal, in either case, behind any of the
      three prefixes. */
  lemma HexReadsBack(val: nat, upper: bool, prefix: string)
    requires val < WORDS && (prefix == "0x" || prefix == "0X" || prefix == "$")
    ensures Meaning(prefix + Text(val, 16, upper)) == Ok(val)
  {
    var s := Text(val, 16, upper);
    var t := prefix + s;
    TextValue(val, 16, upper);
    hide Text;
    hide Value;
    assert t[|prefix|..] == s;
    assert Prefix(t) == (|prefix|, true);
  }

  /** Separators may stand anywhere among the digits. */
  lemma {:induction false} SeparatorsIgnored(s: string, t: string, c: char, base: nat)
    requires IsSeparator(c)
    ensures Value(s + [c] + t, base) == Value(s + t, base)
    decreases t
  {
    if t == "" {
      assert s + [c] + t == s + [c] && s + t == s;
      ValueSnoc(s, c, base);
    } else {
      var front, a := t[..|t| - 1], t[|t| - 1];
      SeparatorsIgnored(s, front, c, base);
      assert s + [c] + t == (s + [c] + front) + [a] && s + t == (s + front) + [a];
      ValueSnoc(s + [c] + front, a, base);
      ValueSnoc(s + front, a, base);
    }
  }
}
