/** The bounded formatter (src/sys/libs/libk/stdio/vsnprintf.c) and the bounded
    append it is built on (src/sys/libs/libk/string/_s_strncat.c). */
module Formatter {

  import opened NumberText
  import opened Shared

  const NUL: char := '\0'

  /** What a pointer to characters stands for: those in front of the null. */
  type CString = s: string | NUL !in s

  const SIZES: nat := 0x1_0000_0000
  const NBUF: nat := 64

  // ---------- the bounded append ----------

  method Copy(buf: array<char>, at: nat, src: string, n: nat)
    requires at + n <= buf.Length && n <= |src|
    modifies buf
    ensures buf[..at] == old(buf[..at]) && buf[at..at + n] == src[..n] && buf[at + n..] == old(buf[at + n..])
  {
    var k := 0;
    while k < n
      invariant k <= n && buf[..at] == old(buf[..at]) && buf[at + k..] == old(buf[at + k..])
      invariant forall i :: 0 <= i < k ==> buf[at + i] == src[i]
    {
      buf[at + k] := src[k];
      k := k + 1;
    }
  }

  /** Appends `src` to the string in `buf[dst..dst + dsz]` as far as it fits, and
      ends it; a destination without an end is left alone. */
  method StrnCat(buf: array<char>, dst: nat, dsz: nat, src: CString, ssz: nat) returns (ok: bool, ghost dlen: nat)
    requires dst + dsz <= buf.Length
    modifies buf
    ensures ok <==> NUL in old(buf[dst..dst + dsz])
    ensures !ok ==> buf[..] == old(buf[..])
    ensures ok ==> dlen < dsz
    ensures ok ==>
      var n := Min(Min(|src|, ssz), dsz - dlen - 1);
      && old(buf[dst + dlen]) == NUL && (forall k :: dst <= k < dst + dlen ==> old(buf[k]) != NUL)
      && buf[..dst + dlen] == old(buf[..dst + dlen])
      && buf[dst + dlen..dst + dlen + n] == src[..n] && buf[dst + dlen + n] == NUL
      && buf[dst + dlen + n + 1..] == old(buf[dst + dlen + n + 1..])
  {
    var end := 0;
    while end < dsz && buf[dst + end] != NUL
      invariant end <= dsz && forall k :: dst <= k < dst + end ==> buf[k] != NUL
    {
      end := end + 1;
    }
    dlen := end;
    if end == dsz {
      return false, dlen;
    }
    assert buf[dst..dst + dsz][end] == NUL;
    var slen := Min(|src|, ssz);
    if end + slen > dsz - 1 {
      slen := dsz - (end + 1);
    }
    Copy(buf, dst + end, src, slen);
    buf[dst + end + slen] := NUL;
    ok := true;
  }

  // ---------- directives ----------

  /** An argument, as the number or the string that the directive asks for. */
  datatype Arg = Arg(num: int, text: CString)

  /** The next argument; arguments that were never passed read as nothing. */
  function Next(args: seq<Arg>): Arg { if args == [] then Arg(0, "") else args[0] }

  function Rest(args: seq<Arg>): seq<Arg> { if args == [] then [] else args[1..] }

  /** The character at `fp`; the format ends with a null character. */
  function CharAt(fmt: string, fp: nat): char { if fp < |fmt| then fmt[fp] else NUL }

  datatype Options = Options(plus: bool, maxInt: bool, longInt: bool, longLong: bool, width: nat, pad: char)

  const PLAIN: Options := Options(false, false, false, false, 0, ' ')

  predicate IsFlag(c: char) { '0' <= c <= '9' || c == '+' || c == 'j' || c == 'h' || c == 'l' }

  /** What one flag character makes of the options; widths are machine words. */
  function WithFlag(o: Options, c: char): Options
    requires IsFlag(c)
  {
    if c == '0' then if o.width > 0 then o.(width := o.width * 10 % SIZES) else o.(pad := '0')
    else if '1' <= c <= '9' then o.(width := (o.width * 10 + (c - '0') as nat) % SIZES)
    else if c == '+' then o.(plus := true)
    else if c == 'j' then o.(maxInt := true)
    else if c == 'l' then if o.longInt then o.(longInt := false, longLong := true) else o.(longInt := true)
    else o
  }

  /** Skips the percent sign or flag at `fp` and all flags behind it. */
  function Directive(fmt: string, fp: nat, o: Options): (r: (nat, Options))
    requires fp < |fmt|
    ensures fp < r.0 <= |fmt|
    decreases |fmt| - fp
  {
    if fp + 1 < |fmt| && IsFlag(fmt[fp + 1]) then Directive(fmt, fp + 1, WithFlag(o, fmt[fp + 1])) else (fp + 1, o)
  }

  predicate IsNumber(c: char) {
    c == 'o' || c == 'u' || c == 'd' || c == 'i' || c == 'x' || c == 'X' || c == 'p'
  }

  predicate IsConversion(c: char) { IsNumber(c) || c == 'c' || c == 's' }

  function BaseOf(c: char): nat {
    if c == 'o' then 8 else if c == 'u' || c == 'd' || c == 'i' then 10 else 16
  }

  predicate IsSigned(c: char) { c == 'd' || c == 'i' }

  /** A word of the given size read as a signed number. */
  function Signed(v: int, size: nat): int
    requires size > 0
  {
    var m := v % size;
    if 2 * m >= size then m - size else m
  }

  /** The value an integer directive fetches: 64 bits, or 32 bits (also for
      `long`) with the sign carried on. */
  function Fetched(o: Options, num: int): int {
    if o.maxInt || o.longLong then Signed(num, WORDS) else Signed(num, SIZES)
  }

  function PointerOptions(c: char, o: Options): Options {
    if c == 'p' then o.(pad := '0', width := if o.maxInt then 16 else 8) else o
  }

  /** The sign, and the value whose digits are printed, as a word of 64 bits. */
  function SignOf(c: char, o: Options, val: int): string {
    if !IsSigned(c) then "" else if val < 0 then "-" else if o.plus then "+" else ""
  }

  function Magnitude(c: char, val: int): nat {
    (if IsSigned(c) && val < 0 then -val else val) % WORDS
  }

  function Repeat(c: char, n: nat): (s: string)
    ensures |s| == n && forall i :: 0 <= i < n ==> s[i] == c
  {
    seq(n, i => c)
  }

  function Padding(pad: char, width: nat, n: nat): string {
    if width > n then Repeat(pad, width - n) else ""
  }

  function Padded(pad: char, width: nat, text: string): string {
    Padding(pad, width, |text|) + text
  }

  function Numeral(c: char, num: int, o: Options): string {
    Text(Magnitude(c, Fetched(o, num)), BaseOf(c), c == 'X' || c == 'p')
  }

  /** What a conversion adds to the output if there is room for all of it. */
  function Piece(c: char, o: Options, a: Arg): string
    requires IsConversion(c)
  {
    if c == 'c' then [(a.num % 256) as char]
    else if c == 's' then Padded(' ', o.width, a.text)
    else
      var p := PointerOptions(c, o);
      (if c == 'p' then "0x" else "") + SignOf(c, p, Fetched(p, a.num)) + Padded(p.pad, p.width, Numeral(c, a.num, p))
  }

  // ---------- items of the format ----------

  /** A character to be copied, or a conversion. */
  datatype Item = Char(c: char) | Field(c: char, o: Options)

  /** The item at `fp`, and where the next one begins. A percent sign or unknown
      character in the place of a conversion is copied, and looked at again; the
      end of the format there is copied as well. */
  function ItemAt(fmt: string, fp: nat): (r: (Item, nat))
    requires fp < |fmt|
    ensures fp < r.1 <= |fmt| && (r.0.Field? ==> IsConversion(r.0.c))
  {
    if fmt[fp] != '%' then (Char(fmt[fp]), fp + 1)
    else
      var (q, o) := Directive(fmt, fp, PLAIN);
      var c := CharAt(fmt, q);
      if q < |fmt| && IsConversion(c) then (Field(c, o), q + 1) else (Char(c), q)
  }

  predicate Proper(i: Item) { i.Field? ==> IsConversion(i.c) }

  function ItemRest(i: Item, args: seq<Arg>): seq<Arg> { if i.Field? then Rest(args) else args }

  function ItemText(i: Item, args: seq<Arg>): string
    requires Proper(i)
  {
    match i
    case Char(c) => [c]
    case Field(c, o) => Piece(c, o, Next(args))
  }

  /** The whole output, were the buffer large enough. */
  function Format(fmt: string, fp: nat, args: seq<Arg>): string
    requires fp <= |fmt|
    decreases |fmt| - fp
  {
    if fp == |fmt| then ""
    else
      var (i, q) := ItemAt(fmt, fp);
      ItemText(i, args) + Format(fmt, q, ItemRest(i, args))
  }

  // ---------- what there is room for ----------

  /** The first `n` characters, or all there are. */
  function Cut(s: string, n: nat): (r: string)
    ensures |r| == Min(|s|, n)
  {
    if |s| <= n then s else s[..n]
  }

  /** What a conversion writes into `room` places: a padded field is narrowed to
      the room before it is padded, and what does not fit is cut off. */
  function Fitted(c: char, o: Options, a: Arg, room: nat): (r: string)
    requires IsConversion(c)
    ensures |r| <= room
  {
    if c == 'c' then Cut([(a.num % 256) as char], room)
    else if c == 's' then Cut(Padded(' ', Min(o.width, room), a.text), room)
    else
      var p := PointerOptions(c, o);
      var front := (if c == 'p' then "0x" else "") + SignOf(c, p, Fetched(p, a.num));
      Cut(front + Padded(p.pad, Min(p.width, Left(room, |front|)), Numeral(c, a.num, p)), room)
  }

  function Left(room: nat, n: nat): nat { if n <= room then room - n else 0 }

  function ItemFitted(i: Item, args: seq<Arg>, room: nat): (r: string)
    requires Proper(i)
    ensures |r| <= room
  {
    match i
    case Char(c) => Cut([c], room)
    case Field(c, o) => Fitted(c, o, Next(args), room)
  }

  /** The output into `room` places. */
  function Emit(fmt: string, fp: nat, args: seq<Arg>, room: nat): (r: string)
    requires fp <= |fmt|
    ensures |r| <= room
    decreases |fmt| - fp
  {
    if fp == |fmt| then ""
    else
      var (i, q) := ItemAt(fmt, fp);
      var t := ItemFitted(i, args, room);
      t + Emit(fmt, q, ItemRest(i, args), room - |t|)
  }

  // ---------- writing ----------

  /** The output so far: all that is in front of the count, which may run past the
      end, but for the last place of the buffer. */
  ghost function Out(buf: seq<char>, slen: nat, s: nat): string
    requires 0 < slen <= |buf|
  {
    buf[..Min(s, slen - 1)]
  }

  /** The places that are still free. */
  ghost function Room(slen: nat, s: nat): nat { if s < slen then slen - 1 - s else 0 }

  /** One character, unless the buffer is full; then the caller gives up. */
  method SafeWrite(sbuf: array<char>, slen: nat, s: nat, c: char) returns (full: bool, t: nat)
    requires slen <= sbuf.Length
    modifies sbuf
    ensures full <==> s >= slen
    ensures t == if full then s else s + 1
    ensures slen > 0 ==> Out(sbuf[..], slen, t) == Out(old(sbuf[..]), slen, s) + Cut([c], Room(slen, s))
    ensures sbuf[slen..] == old(sbuf[slen..])
  {
    full, t := s >= slen, s;
    if !full {
      sbuf[s] := c;
      t := s + 1;
    }
  }

  method Fill(sbuf: array<char>, from: nat, pad: char, n: nat)
    requires from + n <= sbuf.Length
    modifies sbuf
    ensures sbuf[..from] == old(sbuf[..from]) && sbuf[from..from + n] == Repeat(pad, n)
      && sbuf[from + n..] == old(sbuf[from + n..])
  {
    var k := 0;
    while k < n
      invariant k <= n && sbuf[..from] == old(sbuf[..from]) && sbuf[from + k..] == old(sbuf[from + k..])
      invariant forall i :: from <= i < from + k ==> sbuf[i] == pad
    {
      sbuf[from + k] := pad;
      k := k + 1;
    }
  }

  /** The append at the end of the text written so far: it cannot fail, and writes
      as much as there is room for. */
  method Append(sbuf: array<char>, slen: nat, s: nat, p: CString, n: nat) returns (ok: bool)
    requires s < slen <= sbuf.Length && n >= |p|
    modifies sbuf
    ensures ok
    ensures Out(sbuf[..], slen, s + |p|) == old(sbuf[..s]) + Cut(p, Room(slen, s))
    ensures sbuf[slen..] == old(sbuf[slen..])
  {
    ghost var before := sbuf[..];
    sbuf[s] := NUL;
    assert sbuf[s..s + (slen - s)][0] == NUL;
    ghost var was := sbuf[..];
    ghost var dlen;
    ok, dlen := StrnCat(sbuf, s, slen - s, p, n);
    assert dlen == 0;
    AppendSlices(before, was, sbuf[..], slen, s, p);
  }

  lemma AppendSlices(before: seq<char>, was: seq<char>, now: seq<char>, slen: nat, s: nat, p: string)
    requires s < slen <= |before| == |was| == |now| && was == before[s := NUL]
    requires var k := Min(|p|, slen - s - 1);
      now[..s] == was[..s] && now[s..s + k] == p[..k] && now[s + k + 1..] == was[s + k + 1..]
    ensures Out(now, slen, s + |p|) == before[..s] + Cut(p, Room(slen, s))
    ensures now[slen..] == before[slen..]
  {
    var k := Min(|p|, slen - s - 1);
    assert now[..s + k] == now[..s] + now[s..s + k];
    assert p[..k] == Cut(p, slen - s - 1);
    assert now[slen..] == now[s + k + 1..][slen - s - k - 1..];
    assert was[slen..] == was[s + k + 1..][slen - s - k - 1..];
  }

  /** Padding, cut short so that it never takes the last place. */
  method Pad(sbuf: array<char>, slen: nat, s: nat, pad: char, fieldWidth: nat, n: nat) returns (t: nat)
    requires s < slen <= sbuf.Length
    modifies sbuf
    ensures s <= t < slen && sbuf[slen..] == old(sbuf[slen..])
    ensures sbuf[..t] == old(sbuf[..s]) + Padding(pad, Min(fieldWidth, Room(slen, s)), n)
  {
    t := s;
    var width := fieldWidth;
    if width > slen - s - 1 {
      width := slen - s - 1;
    }
    if width > n {
      Fill(sbuf, s, pad, width - n);
      t := s + (width - n);
      assert sbuf[..t] == sbuf[..s] + sbuf[s..t];
      assert sbuf[slen..] == sbuf[t..][slen - t..] && old(sbuf[slen..]) == old(sbuf[t..])[slen - t..];
    }
  }

  /** The text of a conversion, padded on the left. The count may run past the end
      of the buffer. */
  method PutString(sbuf: array<char>, slen: nat, s: nat, pad: char, fieldWidth: nat,
          p: CString) returns (full: bool, t: nat)
    requires slen <= sbuf.Length
    modifies sbuf
    ensures full <==> s >= slen
    ensures full ==> t == s
    ensures sbuf[slen..] == old(sbuf[slen..])
    ensures slen > 0 ==>
      var room := Room(slen, s);
      Out(sbuf[..], slen, t) == Out(old(sbuf[..]), slen, s) + Cut(Padded(pad, Min(fieldWidth, room), p), room)
  {
    full, t := s >= slen, s;
    if full {
      return;
    }
    ghost var was := sbuf[..s];
    t := Pad(sbuf, slen, s, pad, fieldWidth, |p|);
    PaddedCut(was, pad, Min(fieldWidth, Room(slen, s)), p, Room(slen, s));
    hide Padded;
    hide Cut;
    var ok := Append(sbuf, slen, t, p, |p|);
    t := t + |p|;
  }

  /** Padding that fits, and then as much of the text as still does. */
  lemma PaddedCut(was: string, pad: char, width: nat, p: string, room: nat)
    requires width <= room
    ensures var k := |Padding(pad, width, |p|)|;
      k <= room && (was + Padding(pad, width, |p|)) + Cut(p, room - k) == was + Cut(Padded(pad, width, p), room)
  {
  }

  // ---------- digits ----------

  function Pow8(n: nat): nat { if n == 0 then 1 else 8 * Pow8(n - 1) }

  lemma {:induction false} TextLength(val: nat, base: nat, upper: bool, n: nat)
    requires 8 <= base <= 16 && val < Pow8(n) && n > 0
    ensures |Text(val, base, upper)| <= n
    decreases n
  {
    DivMod(val, base);
    var q := Div(val, base);
    if q > 0 {
      assert 8 * q <= val by { Eighths(q, base); }
      assert n > 1;
      TextLength(q, base, upper, n - 1);
    }
  }

  lemma Eighths(q: nat, base: nat)
    requires base >= 8
    ensures 8 * q <= q * base
  {
  }

  /** The digits of a machine word fit into `nbuf` with room to spare. */
  lemma FitsNbuf(val: nat, base: nat, upper: bool)
    requires 8 <= base <= 16 && val < WORDS
    ensures |Text(val, base, upper)| < NBUF && Last(Text(val, base, upper), NBUF - 1) == Text(val, base, upper)
  {
    assert Pow8(22) >= WORDS by {
      assert Pow8(4) == 4096;
      assert Pow8(8) == 4096 * Pow8(4);
      assert Pow8(12) == 4096 * Pow8(8);
      assert Pow8(16) == 4096 * Pow8(12);
      assert Pow8(20) == 4096 * Pow8(16);
    }
    TextLength(val, base, upper, 22);
  }

  lemma NoNul(s: string)
    requires WellFormed(s, true)
    ensures NUL !in s
  {
  }

  /** The digits through the buffer of the formatter. */
  method Digits(val: nat, base: nat, upper: bool) returns (p: CString)
    requires 8 <= base <= 16 && val < WORDS
    ensures p == Text(val, base, upper)
  {
    var nbuf := new char[NBUF];
    var start := BaseToAscii(val, base, upper, nbuf);
    FitsNbuf(val, base, upper);
    TextValue(val, base, upper);
    NoNul(Text(val, base, upper));
    var n := NBUF - (start + 1);
    p := nbuf[start..start + n];
  }

  // ---------- the formatter ----------

  /** What has been written so far and what is still to come make up the whole
      output. */
  ghost predicate OnTrack(whole: string, slen: nat, buf: seq<char>, s: nat, rest: string) {
    0 < slen <= |buf| && whole == Out(buf, slen, s) + rest
  }

  /** Writing the next piece. */
  lemma OnTrackStep(whole: string, slen: nat, was: seq<char>, s: nat, buf: seq<char>, t: nat, piece: string,
          rest: string)
    requires OnTrack(whole, slen, was, s, piece + rest) && slen <= |buf|
    requires Out(buf, slen, t) == Out(was, slen, s) + piece
    ensures OnTrack(whole, slen, buf, t, rest) && Room(slen, t) == Left(Room(slen, s), |piece|)
  {
    assert |Out(buf, slen, t)| == Min(t, slen - 1) && |Out(was, slen, s)| == Min(s, slen - 1);
    Regroup3(Out(was, slen, s), piece, rest);
  }

  /** Cutting what is left off piece by piece is cutting the whole. */
  lemma CutTwo(a: string, b: string, room: nat)
    ensures Cut(a, room) + Cut(b, Left(room, |a|)) == Cut(a + b, room)
  {
  }

  lemma RoomAfter(slen: nat, was: seq<char>, s: nat, buf: seq<char>, t: nat, piece: string)
    requires 0 < slen <= |was| && slen <= |buf| && Out(buf, slen, t) == Out(was, slen, s) + Cut(piece, Room(slen, s))
    ensures Room(slen, t) == Left(Room(slen, s), |piece|) && (Room(slen, t) > 0 ==> t == s + |piece|)
  {
    assert |Out(buf, slen, t)| == Min(t, slen - 1) && |Out(was, slen, s)| == Min(s, slen - 1);
  }

  /** The prefix of a pointer, or the sign. */
  method PutFront(sbuf: array<char>, slen: nat, s: nat, c: char, o: Options, val: int) returns (full: bool, t: nat)
    requires s < slen <= sbuf.Length && IsNumber(c)
    modifies sbuf
    ensures full ==> t >= slen
    ensures sbuf[slen..] == old(sbuf[slen..])
    ensures var front := (if c == 'p' then "0x" else "") + SignOf(c, o, val);
      Out(sbuf[..], slen, t) == Out(old(sbuf[..]), slen, s) + Cut(front, Room(slen, s))
  {
    full, t := false, s;
    if c == 'p' {
      var ok := Append(sbuf, slen, t, "0x", 3);
      t := t + 2;
      assert "0x" + "" == "0x";
    }
    if IsSigned(c) && (val < 0 || o.plus) {
      full, t := SafeWrite(sbuf, slen, t, if val < 0 then '-' else '+');
    }
  }

  method PutNumber(sbuf: array<char>, slen: nat, s: nat, c: char, options: Options,
          num: int) returns (full: bool, t: nat)
    requires s < slen <= sbuf.Length && IsNumber(c)
    modifies sbuf
    ensures full ==> t >= slen
    ensures sbuf[slen..] == old(sbuf[slen..])
    ensures Out(sbuf[..], slen, t) == Out(old(sbuf[..]), slen, s) + Fitted(c, options, Arg(num, ""), Room(slen, s))
  {
    var o := PointerOptions(c, options);
    ghost var room := Room(slen, s);
    ghost var front := (if c == 'p' then "0x" else "") + SignOf(c, o, Fetched(o, num));
    ghost var body := Padded(o.pad, Min(o.width, Left(room, |front|)), Numeral(c, num, o));
    assert Fitted(c, options, Arg(num, ""), room) == Cut(front + body, room);
    ghost var was := sbuf[..];
    full, t := PutFront(sbuf, slen, s, c, o, Fetched(o, num));
    RoomAfter(slen, was, s, sbuf[..], t, front);
    CutTwo(front, body, room);
    Regroup3(Out(was, slen, s), Cut(front, room), Cut(body, Left(room, |front|)));
    hide Text;
    hide Padded;
    hide Cut;
    hide Fetched;
    hide Magnitude;
    hide Out;
    if full {
      assert Room(slen, t) == 0;
      CutNone(body);
      return;
    }
    var val := Fetched(o, num);
    var p := Digits(Magnitude(c, val), BaseOf(c), c == 'X' || c == 'p');
    full, t := PutString(sbuf, slen, t, o.pad, o.width, p);
  }

  lemma CutNone(s: string)
    ensures Cut(s, 0) == ""
  {
  }

  lemma Regroup3(a: string, b: string, c: string)
    ensures (a + b) + c == a + (b + c)
  {
  }

  method PutPiece(sbuf: array<char>, slen: nat, s: nat, c: char, o: Options, a: Arg) returns (full: bool, t: nat)
    requires s < slen <= sbuf.Length && IsConversion(c)
    modifies sbuf
    ensures full ==> t >= slen
    ensures sbuf[slen..] == old(sbuf[slen..])
    ensures Out(sbuf[..], slen, t) == Out(old(sbuf[..]), slen, s) + Fitted(c, o, a, Room(slen, s))
  {
    if c == 'c' {
      full, t := SafeWrite(sbuf, slen, s, (a.num % 256) as char);
    } else if c == 's' {
      full, t := PutString(sbuf, slen, s, ' ', o.width, a.text);
    } else {
      full, t := PutNumber(sbuf, slen, s, c, o, a.num);
    }
  }

  /** Skips the flags; the loop that the label `reswitch` closes. */
  method Reswitch(fmt: string, start: nat) returns (fp: nat, o: Options)
    requires start < |fmt|
    ensures (fp, o) == Directive(fmt, start, PLAIN)
  {
    fp, o := start + 1, PLAIN;
    while fp < |fmt| && IsFlag(fmt[fp])
      invariant start < fp <= |fmt| && Directive(fmt, start, PLAIN) == Directive(fmt, fp - 1, o)
    {
      o := WithFlag(o, fmt[fp]);
      fp := fp + 1;
    }
  }

  /** Copies the format up to the next percent sign. */
  method Literal(sbuf: array<char>, slen: nat, start: nat, fmt: CString, from: nat, ghost whole: string,
          ghost args: seq<Arg>)
    returns (full: bool, s: nat, fp: nat)
    requires slen <= sbuf.Length && from <= |fmt|
    requires OnTrack(whole, slen, sbuf[..], start, Emit(fmt, from, args, Room(slen, start)))
    modifies sbuf
    ensures sbuf[slen..] == old(sbuf[slen..])
    ensures full ==> s >= slen
    ensures from <= fp <= |fmt| && (!full ==> fp == |fmt| || fmt[fp] == '%')
    ensures OnTrack(whole, slen, sbuf[..], s, Emit(fmt, fp, args, Room(slen, s)))
  {
    full, s, fp := false, start, from;
    while CharAt(fmt, fp) != '%' && CharAt(fmt, fp) != NUL
      invariant from <= fp <= |fmt| && sbuf[slen..] == old(sbuf[slen..])
      invariant OnTrack(whole, slen, sbuf[..], s, Emit(fmt, fp, args, Room(slen, s)))
      decreases |fmt| - fp
    {
      ghost var rest := Emit(fmt, fp + 1, args, Left(Room(slen, s), 1));
      full, s := CopyOne(sbuf, slen, s, fmt[fp], whole, rest);
      fp := fp + 1;
      if full {
        return;
      }
    }
    if fp < |fmt| { assert fmt[fp] in fmt; }
  }

  method Convert(sbuf: array<char>, slen: nat, start: nat, c: char, o: Options, a: Arg, ghost whole: string,
          ghost rest: string)
    returns (full: bool, s: nat)
    requires start < slen <= sbuf.Length && IsConversion(c)
    requires OnTrack(whole, slen, sbuf[..], start, Fitted(c, o, a, Room(slen, start)) + rest)
    modifies sbuf
    ensures sbuf[slen..] == old(sbuf[slen..])
    ensures full ==> s >= slen
    ensures OnTrack(whole, slen, sbuf[..], s, rest)
    ensures Room(slen, s) == Left(Room(slen, start), |Fitted(c, o, a, Room(slen, start))|)
  {
    hide Fitted;
    ghost var was := sbuf[..];
    full, s := PutPiece(sbuf, slen, start, c, o, a);
    OnTrackStep(whole, slen, was, start, sbuf[..], s, Fitted(c, o, a, Room(slen, start)), rest);
  }

  /** One character copied from the format; none if there is no room. */
  method CopyOne(sbuf: array<char>, slen: nat, start: nat, c: char, ghost whole: string,
          ghost rest: string) returns (full: bool, s: nat)
    requires slen <= sbuf.Length && OnTrack(whole, slen, sbuf[..], start, Cut([c], Room(slen, start)) + rest)
    modifies sbuf
    ensures sbuf[slen..] == old(sbuf[slen..])
    ensures full <==> start >= slen
    ensures full ==> s >= slen
    ensures OnTrack(whole, slen, sbuf[..], s, rest) && Room(slen, s) == Left(Room(slen, start), 1)
  {
    ghost var was := sbuf[..];
    full, s := SafeWrite(sbuf, slen, start, c);
    OnTrackStep(whole, slen, was, start, sbuf[..], s, Cut([c], Room(slen, start)), rest);
  }

  /** One directive, from its percent sign on. */
  method OneDirective(sbuf: array<char>, slen: nat, start: nat, fmt: CString, at: nat, args: seq<Arg>,
          ghost whole: string)
    returns (full: bool, s: nat, fp: nat, rest: seq<Arg>)
    requires start < slen <= sbuf.Length && at < |fmt| && fmt[at] == '%'
    requires OnTrack(whole, slen, sbuf[..], start, Emit(fmt, at, args, Room(slen, start)))
    modifies sbuf
    ensures sbuf[slen..] == old(sbuf[slen..])
    ensures at < fp <= |fmt| && OnTrack(whole, slen, sbuf[..], s, Emit(fmt, fp, rest, Room(slen, s)))
    ensures full ==> s >= slen || fp == |fmt|
  {
    hide Emit;
    hide ItemAt;
    hide Directive;
    hide Fitted;
    hide IsConversion;
    hide OnTrack;
    hide Cut;
    EmitStep(fmt, at, args, Room(slen, start));
    DirectiveItem(fmt, at);
    var o;
    fp, o := Reswitch(fmt, at);
    rest := args;
    var c := CharAt(fmt, fp);
    if IsConversion(c) {
      ghost var room := Room(slen, start);
      ghost var left := room - |Fitted(c, o, Next(args), room)|;
      full, s := Convert(sbuf, slen, start, c, o, Next(args), whole, Emit(fmt, fp + 1, Rest(args), left));
      rest, fp := Rest(args), fp + 1;
    } else {
      full, s := CopyOne(sbuf, slen, start, c, whole, Emit(fmt, fp, args, Left(Room(slen, start), 1)));
      full := full || c == NUL;
    }
  }

  /** The item that begins with a percent sign. */
  lemma DirectiveItem(fmt: CString, at: nat)
    requires at < |fmt| && fmt[at] == '%'
    ensures var (fp, o) := Directive(fmt, at, PLAIN);
      var c := CharAt(fmt, fp);
      && (c == NUL <==> fp == |fmt|)
      && ItemAt(fmt, at) == if IsConversion(c) then (Field(c, o), fp + 1) else (Char(c), fp)
  {
    var (fp, o) := Directive(fmt, at, PLAIN);
    if fp < |fmt| { assert fmt[fp] in fmt; }
    hide Directive;
  }

  lemma EmitStep(fmt: string, fp: nat, args: seq<Arg>, room: nat)
    requires fp < |fmt|
    ensures var (i, q) := ItemAt(fmt, fp);
      var t := ItemFitted(i, args, room);
      Emit(fmt, fp, args, room) == t + Emit(fmt, q, ItemRest(i, args), room - |t|)
  {
    hide ItemAt;
    hide ItemFitted;
  }

  /** Writes at most `slen` characters, of which the one at the returned place is
      null; those in front of it are what there is room for of the output. */
  method Vsnprintf(sbuf: array<char>, slen: nat, fmt: CString, args: seq<Arg>) returns (r: nat)
    requires slen <= sbuf.Length
    modifies sbuf
    ensures slen == 0 ==> r == 0
    ensures slen > 0 ==> r == Min(|Format(fmt, 0, args)|, slen - 1) && sbuf[r] == NUL
    ensures slen > 0 ==> sbuf[..r] == Output(fmt, args, slen)
    ensures |Format(fmt, 0, args)| < slen ==> sbuf[..r] == Format(fmt, 0, args)
    ensures sbuf[slen..] == old(sbuf[slen..])
  {
    if slen == 0 {
      return 0;
    }
    hide Output;
    hide Format;
    OutputLaw(fmt, args, slen);
    var s := Write(sbuf, slen, fmt, args);
    r := if s < slen - 1 then s else slen - 1;
    sbuf[r] := NUL;
  }

  /** The loop over the format. */
  method Write(sbuf: array<char>, slen: nat, fmt: CString, args: seq<Arg>) returns (s: nat)
    requires 0 < slen <= sbuf.Length
    modifies sbuf
    ensures Out(sbuf[..], slen, s) == Output(fmt, args, slen)
    ensures sbuf[slen..] == old(sbuf[slen..])
  {
    ghost var whole := Output(fmt, args, slen);
    var fp, rest := 0, args;
    s := 0;
    var full := false;
    assert sbuf[..][..0] == [];
    OnTrackStart(whole, slen, sbuf[..]);
    hide Emit;
    hide Output;
    hide OnTrack;
    while true
      invariant 0 <= fp <= |fmt| && sbuf[slen..] == old(sbuf[slen..])
      invariant OnTrack(whole, slen, sbuf[..], s, Emit(fmt, fp, rest, Room(slen, s)))
      decreases |fmt| - fp
    {
      full, s, fp := Literal(sbuf, slen, s, fmt, fp, whole, rest);
      if full || CharAt(fmt, fp) == NUL || s >= slen {
        break;
      }
      full, s, fp, rest := OneDirective(sbuf, slen, s, fmt, fp, rest, whole);
      if full {
        break;
      }
    }
    EmitNothing(fmt, fp, rest);
    OnTrackEnd(whole, slen, sbuf[..], s);
  }

  lemma OnTrackStart(whole: string, slen: nat, buf: seq<char>)
    requires 0 < slen <= |buf|
    ensures OnTrack(whole, slen, buf, 0, whole)
  {
  }

  lemma OnTrackEnd(whole: string, slen: nat, buf: seq<char>, s: nat)
    requires OnTrack(whole, slen, buf, s, "")
    ensures 0 < slen <= |buf| && Out(buf, slen, s) == whole
  {
  }

  /** The output of a call with a buffer of `slen` characters. */
  function Output(fmt: string, args: seq<Arg>, slen: nat): (r: string)
    requires slen > 0
    ensures |r| < slen
  {
    Emit(fmt, 0, args, slen - 1)
  }

  lemma OutputLaw(fmt: string, args: seq<Arg>, slen: nat)
    requires slen > 0
    ensures |Output(fmt, args, slen)| == Min(|Format(fmt, 0, args)|, slen - 1)
    ensures |Format(fmt, 0, args)| < slen ==> Output(fmt, args, slen) == Format(fmt, 0, args)
  {
    hide Emit;
    hide Format;
    EmitLength(fmt, 0, args, slen - 1);
    EmitWhole(fmt, 0, args, slen - 1);
  }

  lemma EmitNothing(fmt: string, fp: nat, args: seq<Arg>)
    requires fp <= |fmt|
    ensures Emit(fmt, fp, args, 0) == "" && forall room: nat :: Emit(fmt, |fmt|, args, room) == ""
  {
  }

  // ---------- how the output into the room relates to the whole ----------

  lemma PaddedLength(pad: char, width: nat, text: string)
    ensures |Padded(pad, width, text)| == if width > |text| then width else |text|
  {
  }

  /** A narrowed field is as long as there is room for, and it is the field itself
      if that fits. */
  lemma Narrowed(front: string, pad: char, width: nat, text: string, room: nat)
    ensures var body, narrow := Padded(pad, width, text), Padded(pad, Min(width, Left(room, |front|)), text);
      && |Cut(front + narrow, room)| == Min(|front + body|, room)
      && (|front + body| <= room ==> Cut(front + narrow, room) == front + body == Cut(front + body, room))
      && (width <= |text| ==> narrow == body)
  {
    PaddedLength(pad, width, text);
    PaddedLength(pad, Min(width, Left(room, |front|)), text);
    hide Padded;
  }

  /** The field has no padding, fits whole, or has a text that is all padding as far
      as there is room for text. */
  predicate Seamless(front: string, pad: char, width: nat, text: string, room: nat) {
    || width <= |text| || |front| + width <= room
    || forall k :: 0 <= k < Min(|text|, Left(room, |front|)) ==> text[k] == pad
  }

  /** The character at `i` is the one `d` places before it, or padding. */
  predicate Shifted(text: string, pad: char, d: nat, i: nat)
    requires i < |text|
  {
    text[i] == if i < d then pad else text[i - d]
  }

  /** A text that equals itself, shifted behind padding, is all padding. */
  lemma {:induction false} ShiftedPadding(text: string, pad: char, d: nat, n: nat)
    requires d > 0 && n <= |text| && forall i: nat | i < n :: Shifted(text, pad, d, i)
    ensures forall i: nat | i < n :: text[i] == pad
  {
    if n > 0 {
      ShiftedPadding(text, pad, d, n - 1);
      assert Shifted(text, pad, d, n - 1);
    }
  }

  lemma PaddedAt(pad: char, width: nat, text: string, j: nat)
    requires |text| < width && j < width
    ensures |Padded(pad, width, text)| == width
    ensures Padded(pad, width, text)[j] == if j < width - |text| then pad else text[j - (width - |text|)]
  {
  }

  /** A field that is too wide for the room begins like the narrowed one exactly
      when what there is room for of its text is padding. */
  lemma NarrowedPrefix(pad: char, width: nat, text: string, room: nat)
    requires |text| < width && room < width
    ensures Cut(Padded(pad, Min(width, room), text), room) == Cut(Padded(pad, width, text), room)
      <==> forall k :: 0 <= k < Min(|text|, room) ==> text[k] == pad
  {
    var narrow, whole := Cut(Padded(pad, room, text), room), Cut(Padded(pad, width, text), room);
    var gap, n := Left(room, |text|), Min(|text|, room);
    var d := width - |text| - gap;
    forall j: nat | j < room
      ensures narrow[j] == if j < gap then pad else text[j - gap]
      ensures whole[j] == if j < gap + d then pad else text[j - gap - d]
    {
      PaddedAt(pad, width, text, j);
      if room > |text| { PaddedAt(pad, room, text, j); }
    }
    hide Padded;
    hide Cut;
    if narrow == whole {
      forall i: nat | i < n ensures Shifted(text, pad, d, i) {
        assert narrow[gap + i] == whole[gap + i];
      }
      ShiftedPadding(text, pad, d, n);
    }
    if forall k :: 0 <= k < n ==> text[k] == pad {
      assert forall j: nat :: j < room ==> narrow[j] == whole[j];
    }
  }

  lemma NarrowedLaw(front: string, pad: char, width: nat, text: string, room: nat)
    ensures var body, narrow := Padded(pad, width, text), Padded(pad, Min(width, Left(room, |front|)), text);
      Cut(front + narrow, room) == Cut(front + body, room) <==> Seamless(front, pad, width, text, room)
  {
    var rest := Left(room, |front|);
    var body, narrow := Padded(pad, width, text), Padded(pad, Min(width, rest), text);
    Narrowed(front, pad, width, text, room);
    PaddedLength(pad, width, text);
    CutTwo(front, body, room);
    CutTwo(front, narrow, room);
    SameFront(Cut(front, room), Cut(body, rest), Cut(narrow, rest));
    if |text| < width && rest < width { NarrowedPrefix(pad, width, text, rest); }
    hide Padded;
    hide Cut;
  }

  lemma SameFront(a: string, b: string, c: string)
    ensures a + b == a + c <==> b == c
  {
    assert (a + b)[|a|..] == b && (a + c)[|a|..] == c;
  }

  /** What comes out of the field of a conversion is its front part. */
  predicate FieldFits(c: char, o: Options, a: Arg, room: nat)
    requires IsConversion(c)
  {
    if c == 'c' then true
    else if c == 's' then Seamless("", ' ', o.width, a.text, room)
    else
      var p := PointerOptions(c, o);
      var front := (if c == 'p' then "0x" else "") + SignOf(c, p, Fetched(p, a.num));
      Seamless(front, p.pad, p.width, Numeral(c, a.num, p), room)
  }

  lemma CutLaw(s: string, room: nat)
    ensures |Cut(s, room)| == Min(|s|, room) && (|s| <= room ==> Cut(s, room) == s)
  {
  }

  lemma FittedLaw(c: char, o: Options, a: Arg, room: nat)
    requires IsConversion(c)
    ensures |Fitted(c, o, a, room)| == Min(|Piece(c, o, a)|, room)
    ensures FieldFits(c, o, a, room) <==> Fitted(c, o, a, room) == Cut(Piece(c, o, a), room)
  {
    hide Seamless;
    hide Padded;
    hide Numeral;
    hide Fetched;
    hide Magnitude;
    hide Cut;
    hide SignOf;
    if c == 's' {
      Narrowed("", ' ', o.width, a.text, room);
      NarrowedLaw("", ' ', o.width, a.text, room);
      assert "" + Padded(' ', o.width, a.text) == Padded(' ', o.width, a.text);
      assert "" + Padded(' ', Min(o.width, room), a.text) == Padded(' ', Min(o.width, room), a.text);
    } else if IsNumber(c) {
      var p := PointerOptions(c, o);
      var front := (if c == 'p' then "0x" else "") + SignOf(c, p, Fetched(p, a.num));
      Narrowed(front, p.pad, p.width, Numeral(c, a.num, p), room);
      NarrowedLaw(front, p.pad, p.width, Numeral(c, a.num, p), room);
    } else {
      CutLaw([(a.num % 256) as char], room);
    }
  }

  /** The output is as long as there is room for. */
  lemma {:induction false} EmitLength(fmt: string, fp: nat, args: seq<Arg>, room: nat)
    requires fp <= |fmt|
    ensures |Emit(fmt, fp, args, room)| == Min(|Format(fmt, fp, args)|, room)
    decreases |fmt| - fp
  {
    hide ItemAt;
    hide ItemFitted;
    hide ItemText;
    if fp < |fmt| {
      var (i, q) := ItemAt(fmt, fp);
      ItemLaw(i, args, room);
      EmitLength(fmt, q, ItemRest(i, args), room - |ItemFitted(i, args, room)|);
    }
  }

  predicate ItemFits(i: Item, args: seq<Arg>, room: nat)
    requires Proper(i)
  {
    i.Field? ==> FieldFits(i.c, i.o, Next(args), room)
  }

  lemma ItemLaw(i: Item, args: seq<Arg>, room: nat)
    requires Proper(i)
    ensures |ItemFitted(i, args, room)| == Min(|ItemText(i, args)|, room)
    ensures ItemFits(i, args, room) <==> ItemFitted(i, args, room) == Cut(ItemText(i, args), room)
    ensures |ItemText(i, args)| <= room ==> ItemFits(i, args, room)
  {
    if i.Field? { FittedLaw(i.c, i.o, Next(args), room); }
    hide Piece;
    hide Fitted;
  }

  /** So it is for every field, in the room that is left for it. */
  predicate FieldsFit(fmt: string, fp: nat, args: seq<Arg>, room: nat)
    requires fp <= |fmt|
    decreases |fmt| - fp
  {
    if fp == |fmt| then true
    else
      var (i, q) := ItemAt(fmt, fp);
      && ItemFits(i, args, room)
      && FieldsFit(fmt, q, ItemRest(i, args), Left(room, |ItemText(i, args)|))
  }

  /** Exactly then the text is the whole output, cut off where the room ends. */
  lemma {:induction false} EmitCut(fmt: string, fp: nat, args: seq<Arg>, room: nat)
    requires fp <= |fmt|
    ensures Emit(fmt, fp, args, room) == Cut(Format(fmt, fp, args), room) <==> FieldsFit(fmt, fp, args, room)
    decreases |fmt| - fp
  {
    hide ItemAt;
    hide ItemFitted;
    hide ItemText;
    hide ItemFits;
    if fp < |fmt| {
      var (i, q) := ItemAt(fmt, fp);
      var text, t := ItemText(i, args), ItemFitted(i, args, room);
      var left := Left(room, |text|);
      var rest, cut := Emit(fmt, q, ItemRest(i, args), left), Cut(Format(fmt, q, ItemRest(i, args)), left);
      ItemLaw(i, args, room);
      EmitCut(fmt, q, ItemRest(i, args), left);
      CutTwo(text, Format(fmt, q, ItemRest(i, args)), room);
      SameParts(t, Cut(text, room), rest, cut);
      hide FieldsFit;
      hide Cut;
    }
  }

  lemma SameParts(a: string, b: string, c: string, d: string)
    requires |a| == |b|
    ensures a + c == b + d <==> a == b && c == d
  {
    assert (a + c)[..|a|] == a && (b + d)[..|a|] == b && (a + c)[|a|..] == c && (b + d)[|a|..] == d;
  }

  /** An output that fits is written whole. */
  lemma EmitWhole(fmt: string, fp: nat, args: seq<Arg>, room: nat)
    requires fp <= |fmt|
    ensures |Format(fmt, fp, args)| <= room ==> Emit(fmt, fp, args, room) == Format(fmt, fp, args)
  {
    if |Format(fmt, fp, args)| <= room {
      WholeFits(fmt, fp, args, room);
      EmitCut(fmt, fp, args, room);
    }
  }

  lemma {:induction false} WholeFits(fmt: string, fp: nat, args: seq<Arg>, room: nat)
    requires fp <= |fmt| && |Format(fmt, fp, args)| <= room
    ensures FieldsFit(fmt, fp, args, room)
    decreases |fmt| - fp
  {
    hide ItemAt;
    hide ItemText;
    hide ItemFits;
    if fp < |fmt| {
      var (i, q) := ItemAt(fmt, fp);
      ItemLaw(i, args, room);
      WholeFits(fmt, q, ItemRest(i, args), Left(room, |ItemText(i, args)|));
    }
  }

  /** A padded field that does not fit loses padding, not text: the result need not
      be the front part of the whole output, but can be. */
  lemma PaddingLost()
    ensures Format("%5s", 0, [Arg(0, "ab")]) == "   ab"
    ensures Emit("%5s", 0, [Arg(0, "ab")], 3) == " ab"
    ensures Format("%5s", 0, [Arg(0, "  ")]) == "     "
    ensures Emit("%5s", 0, [Arg(0, "  ")], 3) == "   "
  {
  }

  // ---------- numbers through the formatter ----------

  lemma OneConversion(o: Options, c: char, fmt: string, v: int)
    requires IsConversion(c) && fmt != "" && fmt[0] == '%' && Directive(fmt, 0, PLAIN) == (|fmt| - 1, o)
      && fmt[|fmt| - 1] == c
    ensures Format(fmt, 0, [Arg(v, "")]) == Piece(c, o, Arg(v, ""))
  {
    assert Format(fmt, |fmt|, []) == "";
  }

  lemma Plain64(v: nat, c: char)
    requires v < WORDS && IsNumber(c) && !IsSigned(c)
    ensures Magnitude(c, Signed(v, WORDS)) == v
  {
  }

  lemma UnsignedPiece(o: Options, v: int)
    requires o.width == 0
    ensures Piece('u', o, Arg(v, "")) == Text(Magnitude('u', Fetched(o, v)), 10, false)
  {
    hide Text;
    hide Magnitude;
    hide Fetched;
  }

  /** A 64-bit value printed with `%ju` reads back as itself. */
  lemma Unsigned64ReadsBack(v: nat)
    requires v < WORDS
    ensures Meaning(Format("%ju", 0, [Arg(v, "")])) == Ok(v)
  {
    var o := PLAIN.(maxInt := true);
    assert Directive("%ju", 1, o) == (2, o);
    OneConversion(o, 'u', "%ju", v);
    UnsignedPiece(o, v);
    Plain64(v, 'u');
    DecimalReadsBack(v, false);
    hide Text;
    hide Meaning;
    hide Format;
    hide Piece;
  }

  lemma {:induction false} LeadingZeros(n: nat, s: string, base: nat)
    ensures Value(Repeat('0', n) + s, base) == Value(s, base)
    ensures forall isHex :: WellFormed(s, isHex) ==> WellFormed(Repeat('0', n) + s, isHex)
    decreases s
  {
    if s == "" {
      assert Repeat('0', n) + s == Repeat('0', n);
      OnlyZeros(n, base);
    } else {
      var front, a := s[..|s| - 1], s[|s| - 1];
      LeadingZeros(n, front, base);
      assert s == front + [a] && Repeat('0', n) + s == (Repeat('0', n) + front) + [a];
      ValueSnoc(front, a, base);
      ValueSnoc(Repeat('0', n) + front, a, base);
      hide Value;
      hide Repeat;
    }
  }

  lemma {:induction false} OnlyZeros(n: nat, base: nat)
    ensures Value(Repeat('0', n), base) == 0 && forall isHex :: WellFormed(Repeat('0', n), isHex)
  {
    if n > 0 {
      OnlyZeros(n - 1, base);
      assert Repeat('0', n) == Repeat('0', n - 1) + "0";
      ValueSnoc(Repeat('0', n - 1), '0', base);
    }
  }

  lemma PointerPiece(o: Options, v: int)
    ensures Piece('p', o, Arg(v, "")) ==
      "0x" + Padded('0', if o.maxInt then 16 else 8, Text(Magnitude('p', Fetched(o, v)), 16, true))
  {
    hide Text;
    hide Magnitude;
    hide Padded;
    assert SignOf('p', o, v) == "";
  }

  lemma HexMeaning(s: string)
    requires s != "" && WellFormed(s, true)
    ensures Meaning("0x" + s) == Ok(Value(s, 16) % WORDS)
  {
    hide Value;
    hide WellFormed;
    var t := "0x" + s;
    assert t[2..] == s;
    assert Prefix(t) == (2, true);
  }

  lemma PaddedZeros(t: string, width: nat)
    ensures Padded('0', width, t) == Repeat('0', if width > |t| then width - |t| else 0) + t
  {
    assert Repeat('0', 0) + t == t;
  }

  lemma PaddedReadsBack(v: nat, width: nat)
    requires v < WORDS
    ensures Meaning("0x" + Padded('0', width, Text(v, 16, true))) == Ok(v)
  {
    hide Text;
    hide Value;
    hide Meaning;
    hide WellFormed;
    var t := Text(v, 16, true);
    PaddedZeros(t, width);
    TextValue(v, 16, true);
    LeadingZeros(if width > |t| then width - |t| else 0, t, 16);
    HexMeaning(Padded('0', width, t));
  }

  /** A 64-bit address printed with `%jp` reads back as itself: prefix, leading
      zeros and capital digits are all understood. */
  lemma Pointer64ReadsBack(v: nat)
    requires v < WORDS
    ensures Meaning(Format("%jp", 0, [Arg(v, "")])) == Ok(v)
  {
    var o := PLAIN.(maxInt := true);
    assert Directive("%jp", 1, o) == (2, o);
    OneConversion(o, 'p', "%jp", v);
    PointerPiece(o, v);
    Plain64(v, 'p');
    PaddedReadsBack(v, 16);
    hide Text;
    hide Meaning;
    hide Format;
    hide Piece;
    hide Padded;
  }

  lemma Carried(c: char, v: nat)
    requires v < SIZES && !IsSigned(c)
    ensures Magnitude(c, Signed(v, SIZES)) == if v < 0x8000_0000 then v else WORDS - SIZES + v
  {
  }

  /** Without a 64-bit flag the sign of the 32-bit value is carried on, in every
      conversion that prints no sign: the digits are those of the value exactly
      when its highest bit is clear. */
  lemma Unsigned32(c: char, v: nat, o: Options)
    requires v < SIZES && IsNumber(c) && !IsSigned(c) && !o.maxInt && !o.longLong
    ensures Numeral(c, v, o) == Text(v, BaseOf(c), c == 'X' || c == 'p') <==> v < 0x8000_0000
  {
    Carried(c, v);
    var m := Magnitude(c, Fetched(o, v));
    TextValue(v, BaseOf(c), c == 'X' || c == 'p');
    TextValue(m, BaseOf(c), c == 'X' || c == 'p');
    hide Text;
    hide Value;
    hide Magnitude;
  }

  /** The largest 32-bit value comes out as the digits of another number. */
  lemma Unsigned32Broken()
    ensures Format("%u", 0, [Arg(0xFFFF_FFFF, "")]) != Text(0xFFFF_FFFF, 10, false)
  {
    assert Directive("%u", 0, PLAIN) == (1, PLAIN);
    OneConversion(PLAIN, 'u', "%u", 0xFFFF_FFFF);
    UnsignedPiece(PLAIN, 0xFFFF_FFFF);
    hide Text;
    hide Format;
    hide Piece;
    Unsigned32('u', 0xFFFF_FFFF, PLAIN);
  }

  /** A 32-bit address printed with `%p` reads back as itself exactly when its
      highest bit is clear; the kernel's own addresses are above. */
  lemma Pointer32ReadsBack(v: nat)
    requires v < SIZES
    ensures Meaning(Format("%p", 0, [Arg(v, "")])) == Ok(v) <==> v < 0x8000_0000
  {
    assert Directive("%p", 0, PLAIN) == (1, PLAIN);
    OneConversion(PLAIN, 'p', "%p", v);
    PointerPiece(PLAIN, v);
    Carried('p', v);
    PaddedReadsBack(Magnitude('p', Fetched(PLAIN, v)), 8);
    hide Text;
    hide Meaning;
    hide Format;
    hide Piece;
    hide Padded;
    hide Magnitude;
  }
}
