/**
 Printing numbers (lib/printfmt.c) and reading them back (lib/string.c).
 */
module Numerals {
  import opened Arithmetic
  import opened Units

  // ---------- printnum ----------

  function DigitChar(d: nat): char
    requires d < 36
  {
    if d < 10 then '0' + d as char else 'a' + (d - 10) as char
  }

  lemma Quotient(q: nat, m: nat, base: nat, num: nat)
    requires q * base + m == num && base >= 2 && m < base <= num
    ensures 0 < q < num
  {
    if q > 0 {
      assert q * base >= q * 2;
    }
  }

  lemma DigitSplit(num: nat, base: nat)
    requires 2 <= base
    ensures (num / base) * base + num % base == num && num % base < base
    ensures num >= base ==> num / base < num
    ensures num < base ==> num % base == num
  {
    if num >= base {
      Quotient(num / base, num % base, base, num);
    }
  }

  // The digits of a number, most significant first
  function Digits(num: nat, base: nat): (s: string)
    requires 2 <= base <= 16
    ensures |s| > 0
  {
    DigitSplit(num, base);
    if num < base then [DigitChar(num)] else Digits(num / base, base) + [DigitChar(num % base)]
  }

  function Repeat(c: char, n: nat): string { seq(n, _ => c) }

  // What fills the width on the left
  function Padding(width: int, digits: nat, padc: char): string {
    Repeat(padc, if width > digits then width - digits else 0)
  }

  function NumText(num: nat, base: nat, width: int, padc: char): string
    requires 2 <= base <= 16
  {
    Padding(width, |Digits(num, base)|, padc) + Digits(num, base)
  }

  // printnum's recursion: one digit fewer, one column fewer
  lemma {:induction false} NumTextStep(num: nat, base: nat, width: int, padc: char)
    requires 2 <= base <= 16 && num >= base && num % base < base
    ensures NumText(num, base, width, padc) == NumText(num / base, base, width - 1, padc) + [DigitChar(num % base)]
  {
    var d := Digits(num / base, base);
    Assoc(Padding(width - 1, |d|, padc), d, [DigitChar(num % base)]);
  }

  // do_div
  method DoDiv(num: nat, base: nat) returns (result: nat, mod: nat)
    requires base >= 2
    ensures result == num / base && mod == num % base < base && (num >= base ==> result < num) && (num < base ==> mod == num)
  {
    DigitSplit(num, base);
    result, mod := num / base, num % base;
  }

  lemma Assoc(a: string, b: string, c: string)
    ensures (a + b) + c == a + (b + c)
  {
  }

  // ---------- formatted output ----------

  // A literal character, %d, %u or %o or %x, and %p, with the flags and the width taken from the format
  datatype Piece =
    | Literal(ch: char)
    | Signed(value: int, width: int, padc: char)
    | Unsigned(num: nat, base: nat, width: int, padc: char)
    | Pointer(addr: nat, width: int, padc: char)

  predicate PieceOk(p: Piece) { p.Unsigned? ==> p.base in {8, 10, 16} }

  function PieceText(p: Piece): string
    requires PieceOk(p)
  {
    match p
    case Literal(ch) => [ch]
    case Signed(v, w, padc) => if v < 0 then "-" + NumText(-v, 10, w, padc) else NumText(v, 10, w, padc)
    case Unsigned(num, base, w, padc) => NumText(num, base, w, padc)
    case Pointer(a, w, padc) => "0x" + NumText(a, 16, w, padc)
  }

  predicate AllOk(pieces: seq<Piece>) { forall i :: 0 <= i < |pieces| ==> PieceOk(pieces[i]) }

  function Text(pieces: seq<Piece>): string
    requires AllOk(pieces)
  {
    if pieces == [] then "" else PieceText(pieces[0]) + Text(pieces[1..])
  }

  function Least(a: nat, b: nat): nat { if a < b then a else b }

  // struct sprintbuf: a cursor into a caller's buffer, of which ebuf characters may be used
  class SprintBuf {
    const str: array<char>
    const ebuf: nat
    var buf: nat
    var cnt: nat
    // everything printed so far, whether it was stored or not
    ghost var out: string
    // what the buffer held at first
    ghost const was: string

    ghost predicate Valid()
      reads this, str
    {
      ebuf < str.Length == |was| && cnt == |out| && buf == Least(|out|, ebuf)
      && str[..buf] == out[..buf] && str[buf..] == was[buf..]
    }

    constructor (str: array<char>, ebuf: nat)
      requires ebuf < str.Length
      ensures Valid() && out == "" && this.str == str && this.ebuf == ebuf && was == str[..]
    {
      this.str, this.ebuf, buf, cnt, out, was := str, ebuf, 0, 0, "", str[..];
    }

    // sprintputch
    method Putch(ch: char)
      requires Valid()
      modifies this, str
      ensures Valid() && out == old(out) + [ch]
    {
      cnt := cnt + 1;
      out := out + [ch];
      if buf < ebuf {
        str[buf] := ch;
        buf := buf + 1;
        assert str[..buf] == old(str[..buf]) + [ch];
      }
    }

    // while (-- width > 0) putch(padc, putdat)
    method Pad(width: int, padc: char)
      requires Valid()
      modifies this, str
      ensures Valid() && out == old(out) + Padding(width, 1, padc)
    {
      var w := width - 1;
      ghost var n: nat := 0;
      while w > 0
        invariant Valid() && out == old(out) + Repeat(padc, n)
                  && (if width > 1 then w == width - 1 - n >= 0 else w <= 0 && n == 0)
      {
        assert Repeat(padc, n + 1) == Repeat(padc, n) + [padc];
        Putch(padc);
        w := w - 1;
        n := n + 1;
      }
    }

    // printnum
    method PrintNum(num: nat, base: nat, width: int, padc: char)
      requires Valid() && 2 <= base <= 16
      modifies this, str
      ensures Valid() && out == old(out) + NumText(num, base, width, padc)
      decreases num
    {
      var result, mod := DoDiv(num, base);
      ghost var was := out;
      if num >= base {
        NumTextStep(num, base, width, padc);
        PrintNum(result, base, width - 1, padc);
        Assoc(was, NumText(result, base, width - 1, padc), [DigitChar(mod)]);
      } else {
        Pad(width, padc);
        Assoc(was, Padding(width, 1, padc), [DigitChar(mod)]);
      }
      Putch(DigitChar(mod));
    }

    // The conversions of vprintfmt
    method PrintPiece(p: Piece)
      requires Valid() && PieceOk(p)
      modifies this, str
      ensures Valid() && out == old(out) + PieceText(p) && (p.Literal? ==> out == old(out) + [p.ch])
    {
      match p
      case Literal(ch) => Putch(ch);
      case Signed(v, w, padc) => PrintSigned(v, w, padc);
      case Unsigned(num, base, w, padc) => PrintNum(num, base, w, padc);
      case Pointer(a, w, padc) => PrintPointer(a, w, padc);
    }

    // %d
    method PrintSigned(v: int, width: int, padc: char)
      requires Valid()
      modifies this, str
      ensures Valid() && out == old(out) + PieceText(Signed(v, width, padc))
    {
      var num := v;
      if num < 0 {
        Putch('-');
        num := -num;
        Assoc(old(out), "-", NumText(num, 10, width, padc));
      }
      PrintNum(num, 10, width, padc);
    }

    // %p
    method PrintPointer(a: nat, width: int, padc: char)
      requires Valid()
      modifies this, str
      ensures Valid() && out == old(out) + PieceText(Pointer(a, width, padc))
    {
      Putch('0');
      Putch('x');
      assert out == old(out) + "0x";
      Assoc(old(out), "0x", NumText(a, 16, width, padc));
      PrintNum(a, 16, width, padc);
    }

    // vprintfmt, on a format already taken apart
    method PrintAll(pieces: seq<Piece>)
      requires Valid() && AllOk(pieces)
      modifies this, str
      ensures Valid() && out == old(out) + Text(pieces)
    {
      var i := 0;
      assert pieces[0..] == pieces;
      while i < |pieces|
        invariant i <= |pieces| && Valid() && out + Text(pieces[i..]) == old(out) + Text(pieces)
      {
        TextStep(out, pieces, i);
        PrintPiece(pieces[i]);
        i := i + 1;
      }
      assert Text(pieces[i..]) == "";
    }

    // *b.buf = '\0'
    method Terminate()
      requires Valid()
      modifies str
      ensures Holds(str[..], was, out, ebuf)
    {
      str[buf] := '\0';
      assert str[..][..buf + 1] == str[..buf] + ['\0'];
      assert str[..][buf + 1..] == was[buf..][1..] == was[buf + 1..];
    }
  }

  // What the caller finds in the buffer: as much of the text as fits, a NUL, and after it what was there before
  ghost predicate Holds(s: string, was: string, text: string, room: nat) {
    var k := Least(|text|, room);
    |s| == |was| > k && s[..k + 1] == text[..k] + ['\0'] && s[k + 1..] == was[k + 1..]
  }

  // The text of a list of pieces is the texts of its pieces in order.
  lemma {:induction false} TextConcat(a: seq<Piece>, b: seq<Piece>)
    requires AllOk(a) && AllOk(b)
    ensures Text(a + b) == Text(a) + Text(b) && (|a| == 1 ==> Text(a) == PieceText(a[0]))
    decreases |a|
  {
    if a == [] {
      assert a + b == b;
    } else {
      assert (a + b)[1..] == a[1..] + b;
      TextConcat(a[1..], b);
      Assoc(PieceText(a[0]), Text(a[1..]), Text(b));
      assert |a| == 1 ==> a[1..] == [];
    }
  }

  lemma {:induction false} TextStep(out: string, pieces: seq<Piece>, i: nat)
    requires i < |pieces| && AllOk(pieces)
    ensures out + Text(pieces[i..]) == (out + PieceText(pieces[i])) + Text(pieces[i + 1..])
  {
    assert pieces[i..][1..] == pieces[i + 1..];
    Assoc(out, PieceText(pieces[i]), Text(pieces[i + 1..]));
  }

  const E_INVAL: int := 3

  // vsnprintf: the longest prefix that fits, a NUL after it, and the length of the whole
  method Vsnprintf(str: array?<char>, size: nat, pieces: seq<Piece>) returns (r: int)
    requires str != null ==> size <= str.Length
    requires AllOk(pieces)
    modifies if str == null then {} else {str}
    ensures str == null || size == 0 ==> r == -E_INVAL && (str != null ==> str[..] == old(str[..]))
    ensures str != null && size > 0 ==>
              r == |Text(pieces)| && Holds(str[..], old(str[..]), Text(pieces), size - 1)
  {
    if str == null || size == 0 {
      return -E_INVAL;
    }
    var b := new SprintBuf(str, size - 1);
    b.PrintAll(pieces);
    assert "" + Text(pieces) == Text(pieces);
    b.Terminate();
    r := b.cnt;
  }

  // ---------- strtol ----------

  const HALF: int := 0x8000_0000

  // A long has 32 bits and wraps around.
  function Wrap(x: int): (r: int)
    ensures -HALF <= r < HALF
  {
    (x + HALF) % WORD - HALF
  }

  lemma WrapMod(x: int, k: int)
    ensures Wrap(x + k * WORD) == Wrap(x)
  {
    ModShift(x + HALF, k);
  }

  lemma {:induction false} ModShift(x: int, k: int)
    ensures (x + k * WORD) % WORD == x % WORD
    decreases if k < 0 then -k else k
  {
    if k > 0 {
      ModShift(x, k - 1);
      assert x + k * WORD == (x + (k - 1) * WORD) + WORD;
    } else if k < 0 {
      ModShift(x, k + 1);
      assert x + (k + 1) * WORD == (x + k * WORD) + WORD;
    }
  }

  lemma WrapDiffers(x: int) returns (k: int)
    ensures Wrap(x) == x + k * WORD
  {
    k := -((x + HALF) / WORD);
  }

  // Wrapping at every step is wrapping once at the end.
  lemma WrapStep(v: int, base: nat, d: int)
    ensures Wrap(Wrap(v) * base + d) == Wrap(v * base + d)
  {
    var k := WrapDiffers(v);
    assert (v + k * WORD) * base + d == (v * base + d) + (k * base) * WORD;
    WrapMod(v * base + d, k * base);
  }

  lemma WrapNeg(v: int)
    ensures Wrap(-Wrap(v)) == Wrap(-v)
  {
    var k := WrapDiffers(v);
    WrapMod(-v, -k);
  }

  function CharAt(s: string, i: nat): char { if i < |s| then s[i] else '\0' }

  // The value of a digit, or 36 for any other character
  function DigitOf(c: char): nat {
    if '0' <= c <= '9' then (c - '0') as nat
    else if 'a' <= c <= 'z' then (c - 'a') as nat + 10
    else if 'A' <= c <= 'Z' then (c - 'A') as nat + 10
    else 36
  }

  predicate IsBlank(c: char) { c == ' ' || c == '\t' }

  // The first position from i on that holds no blank
  function Blanks(s: string, i: nat): (j: nat)
    requires i <= |s|
    ensures i <= j <= |s|
    decreases |s| - i
  {
    if i < |s| && IsBlank(s[i]) then Blanks(s, i + 1) else i
  }

  // The end of the digits of that base from i on
  function RunEnd(s: string, i: nat, base: nat): (j: nat)
    requires i <= |s|
    ensures i <= j <= |s|
    decreases |s| - i
  {
    if i < |s| && DigitOf(s[i]) < base then RunEnd(s, i + 1, base) else i
  }

  function Value(t: string, base: nat): nat {
    if t == "" then 0 else Value(t[..|t| - 1], base) * base + DigitOf(t[|t| - 1])
  }

  // Where the digits start and in which base they are read
  function Prefix(s: string, i: nat, base: nat): (r: (nat, nat))
    requires i <= |s|
    ensures i <= r.0 <= |s|
  {
    if (base == 0 || base == 16) && CharAt(s, i) == '0' && CharAt(s, i + 1) == 'x' then (i + 2, 16)
    else if base == 0 && CharAt(s, i) == '0' then (i + 1, 8)
    else if base == 0 then (i, 10)
    else (i, base)
  }

  // The number the longest run of digits denotes, after blanks, a sign and a prefix, and where it ends
  function Parsed(s: string, base: nat): (r: (int, nat))
    ensures -HALF <= r.0 < HALF
  {
    var i := Blanks(s, 0);
    var j := if CharAt(s, i) == '+' || CharAt(s, i) == '-' then i + 1 else i;
    var k := Prefix(s, j, base).0;
    var b := Prefix(s, j, base).1;
    var e := RunEnd(s, k, b);
    var v: int := Value(s[k..e], b);
    (Wrap(if CharAt(s, i) == '-' then -v else v), e)
  }

  // strtol, with the end as an index
  method Strtol(s: string, base: nat) returns (val: int, end: nat)
    requires base <= 36
    ensures (val, end) == Parsed(s, base)
  {
    var i: nat := 0;
    while IsBlank(CharAt(s, i))
      invariant i <= |s| && Blanks(s, i) == Blanks(s, 0)
      decreases |s| - i
    {
      i := i + 1;
    }
    var neg := false;
    if CharAt(s, i) == '+' {
      i := i + 1;
    } else if CharAt(s, i) == '-' {
      i, neg := i + 1, true;
    }
    var k, b := SkipPrefix(s, i, base);
    val, end := ReadDigits(s, k, b);
    if neg {
      WrapNeg(Value(s[k..end], b));
      val := Wrap(-val);
    }
  }

  method SkipPrefix(s: string, i: nat, base: nat) returns (k: nat, b: nat)
    requires i <= |s| && base <= 36
    ensures (k, b) == Prefix(s, i, base) && b <= 36
  {
    k, b := i, base;
    if (base == 0 || base == 16) && CharAt(s, i) == '0' && CharAt(s, i + 1) == 'x' {
      k, b := i + 2, 16;
    } else if base == 0 && CharAt(s, i) == '0' {
      k, b := i + 1, 8;
    } else if base == 0 {
      b := 10;
    }
  }

  lemma {:induction false} ReadStep(s: string, k: nat, end: nat, base: nat)
    requires k <= end < |s|
    ensures Wrap(Wrap(Value(s[k..end], base)) * base + DigitOf(s[end])) == Wrap(Value(s[k..end + 1], base))
  {
    ValueSnoc(s[k..end], s[end], base);
    assert s[k..end] + [s[end]] == s[k..end + 1];
    WrapStep(Value(s[k..end], base), base, DigitOf(s[end]));
  }

  // The digit loop of strtol
  method ReadDigits(s: string, k: nat, base: nat) returns (val: int, end: nat)
    requires k <= |s| && base <= 36
    ensures end == RunEnd(s, k, base) && val == Wrap(Value(s[k..end], base))
  {
    val, end := 0, k;
    assert s[k..k] == "";
    while DigitOf(CharAt(s, end)) < base
      invariant k <= end <= |s| && RunEnd(s, end, base) == RunEnd(s, k, base) && val == Wrap(Value(s[k..end], base))
      decreases |s| - end
    {
      ReadStep(s, k, end, base);
      val := Wrap(val * base + DigitOf(CharAt(s, end)));
      end := end + 1;
    }
  }

  // ---------- printing and reading back ----------

  predicate IsBase(base: nat) { base == 8 || base == 10 || base == 16 }

  // All of t are digits of the base.
  ghost predicate AllDigits(t: string, base: nat) { forall i :: 0 <= i < |t| ==> DigitOf(t[i]) < base && t[i] != 'x' }

  lemma DigitRoundTrip(d: nat, base: nat)
    requires d < base <= 16
    ensures DigitOf(DigitChar(d)) == d && DigitChar(d) != 'x'
  {
  }

  lemma {:induction false} ValueSnoc(t: string, c: char, base: nat)
    ensures Value(t + [c], base) == Value(t, base) * base + DigitOf(c)
  {
    var s := t + [c];
    assert s[..|s| - 1] == t;
  }

  lemma {:induction false} DigitsAre(num: nat, base: nat)
    requires 2 <= base <= 16
    ensures AllDigits(Digits(num, base), base)
    decreases num
  {
    DigitSplit(num, base);
    DigitRoundTrip(num % base, base);
    if num >= base {
      DigitsAre(num / base, base);
    }
  }

  lemma {:induction false} SnocDigit(t: string, q: nat, m: nat, base: nat)
    requires m < base <= 16 && Value(t, base) == q
    ensures Value(t + [DigitChar(m)], base) == q * base + m
  {
    DigitRoundTrip(m, base);
    ValueSnoc(t, DigitChar(m), base);
  }

  lemma {:induction false} DigitsValue(num: nat, base: nat)
    requires 2 <= base <= 16
    ensures Value(Digits(num, base), base) == num
    decreases num
  {
    if num >= base {
      var q, m := num / base, num % base;
      DigitSplit(num, base);
      DigitsValue(q, base);
      SnocDigit(Digits(q, base), q, m, base);
    } else {
      SnocDigit("", 0, num, base);
      assert "" + [DigitChar(num)] == [DigitChar(num)];
    }
  }

  // Leading zeros do not count.
  lemma {:induction false} ZerosValue(n: nat, t: string, base: nat)
    ensures Value(Repeat('0', n) + t, base) == Value(t, base)
    decreases |t|, n
  {
    var s := Repeat('0', n) + t;
    if t != "" {
      assert s[..|s| - 1] == Repeat('0', n) + t[..|t| - 1];
      ZerosValue(n, t[..|t| - 1], base);
    } else if n > 0 {
      assert s[..|s| - 1] == Repeat('0', n - 1) + t;
      ZerosValue(n - 1, t, base);
    }
  }

  lemma {:induction false} RunTo(s: string, i: nat, e: nat, base: nat)
    requires i <= e <= |s| && (forall j :: i <= j < e ==> DigitOf(s[j]) < base) && (e < |s| ==> DigitOf(s[e]) >= base)
    ensures RunEnd(s, i, base) == e
    decreases e - i
  {
    if i < e {
      RunTo(s, i + 1, e, base);
    }
  }

  lemma {:induction false} BlanksTo(s: string, i: nat, j: nat)
    requires i <= j <= |s| && (forall m :: i <= m < j ==> IsBlank(s[m])) && (j < |s| ==> !IsBlank(s[j]))
    ensures Blanks(s, i) == j
    decreases j - i
  {
    if i < j {
      BlanksTo(s, i + 1, j);
    }
  }

  // ---------- what strtol reads ----------

  function CapitalChar(d: nat): char
    requires d < 36
  {
    if d < 10 then '0' + d as char else 'A' + (d - 10) as char
  }

  // The digits that printnum uses
  lemma DigitNames(d: nat)
    requires d < 16
    ensures DigitChar(d) == "0123456789abcdef"[d]
  {
  }

  // Digits may be written with either letter, and nothing else is a digit.
  lemma DigitTable(c: char, d: nat)
    requires d < 36
    ensures DigitOf(c) == d <==> c == DigitChar(d) || c == CapitalChar(d)
  {
  }

  // Positions in a text s: blanks up to i, a sign up to j, the prefix of a base up to k, and digits of base b up to e, each
  // as long as it can be
  datatype Layout = Layout(i: nat, j: nat, k: nat, e: nat, b: nat)

  // "0x" is skipped for base 16 and means 16 for base 0; for base 0 a leading 0 means 8, and neither means 10.
  predicate PrefixOk(s: string, base: nat, p: Layout) {
    var hex := CharAt(s, p.j) == '0' && CharAt(s, p.j + 1) == 'x';
    if hex && (base == 0 || base == 16) then p.k == p.j + 2 && p.b == 16
    else if CharAt(s, p.j) == '0' && base == 0 then p.k == p.j + 1 && p.b == 8
    else p.k == p.j && p.b == if base == 0 then 10 else base
  }

  predicate SignOk(s: string, p: Layout) {
    if CharAt(s, p.i) == '+' || CharAt(s, p.i) == '-' then p.j == p.i + 1
    else p.j == p.i && CharAt(s, p.i) != ' ' && CharAt(s, p.i) != '\t'
  }

  ghost predicate LaidOut(s: string, base: nat, p: Layout) {
    p.i <= p.j <= p.k <= p.e <= |s| && (forall m :: 0 <= m < p.i ==> s[m] == ' ' || s[m] == '\t')
    && SignOk(s, p) && PrefixOk(s, base, p)
    && (forall m :: p.k <= m < p.e ==> DigitOf(s[m]) < p.b) && (p.e < |s| ==> DigitOf(s[p.e]) >= p.b)
  }

  // What strtol makes of a text so laid out
  lemma {:induction false} ReadAsLaidOut(s: string, base: nat, p: Layout)
    requires LaidOut(s, base, p)
    ensures var v: int := Value(s[p.k..p.e], p.b); Parsed(s, base) == (Wrap(if CharAt(s, p.i) == '-' then -v else v), p.e)
  {
    Found(s, base, p);
  }

  // The loops of strtol find these positions.
  lemma {:induction false} Found(s: string, base: nat, p: Layout)
    requires LaidOut(s, base, p)
    ensures Blanks(s, 0) == p.i && Prefix(s, p.j, base) == (p.k, p.b) && RunEnd(s, p.k, p.b) == p.e
  {
    BlanksTo(s, 0, p.i);
    RunTo(s, p.k, p.e, p.b);
  }

  // Every text is laid out in one way.
  lemma {:induction false} EveryText(s: string, base: nat) returns (p: Layout)
    ensures LaidOut(s, base, p) && forall q :: LaidOut(s, base, q) ==> q == p
  {
    var i := Blanks(s, 0);
    var j := if CharAt(s, i) == '+' || CharAt(s, i) == '-' then i + 1 else i;
    var k := Prefix(s, j, base).0;
    var b := Prefix(s, j, base).1;
    p := Layout(i, j, k, RunEnd(s, k, b), b);
    BlanksEnd(s, 0);
    RunEnds(s, k, b);
    forall q | LaidOut(s, base, q) ensures q == p {
      Found(s, base, q);
    }
  }

  lemma {:induction false} BlanksEnd(s: string, i: nat)
    requires i <= |s|
    ensures var j := Blanks(s, i); (forall m :: i <= m < j ==> IsBlank(s[m])) && (j < |s| ==> !IsBlank(s[j]))
    decreases |s| - i
  {
    if i < |s| && IsBlank(s[i]) {
      BlanksEnd(s, i + 1);
    }
  }

  lemma {:induction false} RunEnds(s: string, i: nat, base: nat)
    requires i <= |s|
    ensures var j := RunEnd(s, i, base);
            (forall m :: i <= m < j ==> DigitOf(s[m]) < base) && (j < |s| ==> DigitOf(s[j]) >= base)
    decreases |s| - i
  {
    if i < |s| && DigitOf(s[i]) < base {
      RunEnds(s, i + 1, base);
    }
  }

  // ---------- reading digits back ----------

  // Only digits follow the blanks and the sign.
  lemma {:induction false} DigitsFollow(s: string, base: nat, i: nat, j: nat)
    requires 0 < base <= 36 && i <= j < |s| && (forall m :: 0 <= m < i ==> s[m] == ' ')
    requires j == (if s[i] == '-' then i + 1 else i) && forall m :: j <= m < |s| ==> DigitOf(s[m]) < base && s[m] != 'x'
    ensures var v: int := Value(s[j..], base); Parsed(s, base) == (Wrap(if s[i] == '-' then -v else v), |s|)
  {
    assert s[j..|s|] == s[j..] && DigitOf(s[j]) < base;
    ReadAsLaidOut(s, base, Layout(i, j, j, |s|, base));
  }

  // A sign that no digit follows
  lemma {:induction false} NothingRead(s: string, base: nat)
    requires IsBase(base) && |s| > 1 && s[0] == '-' && DigitOf(s[1]) == 36
    ensures Parsed(s, base) == (0, 1)
  {
    assert s[1..1] == "";
    ReadAsLaidOut(s, base, Layout(0, 1, 1, 1, base));
  }

  // Blanks, a sign and digits are read as the digits' value.
  lemma {:induction false} ReadBack(blanks: nat, sign: string, t: string, base: nat)
    requires IsBase(base) && AllDigits(t, base) && t != "" && (sign == "" || sign == "-")
    ensures var v: int := Value(t, base); var s := Repeat(' ', blanks) + sign + t;
            Parsed(s, base) == (Wrap(if sign == "-" then -v else v), |s|)
  {
    Placed(blanks, sign, t);
    ReadPlaced(Repeat(' ', blanks) + sign + t, blanks, sign == "-", t, base);
  }

  // s is so many blanks, a minus sign or none, and t.
  ghost predicate PlacedIn(s: string, blanks: nat, neg: bool, t: string) {
    var j := if neg then blanks + 1 else blanks;
    t != "" && |s| == j + |t| && s[j..] == t && (forall m :: 0 <= m < blanks ==> s[m] == ' ')
    && s[blanks] == (if neg then '-' else t[0]) && (forall m :: j <= m < |s| ==> s[m] == t[m - j])
  }

  lemma Placed(blanks: nat, sign: string, t: string)
    requires t != "" && (sign == "" || sign == "-")
    ensures PlacedIn(Repeat(' ', blanks) + sign + t, blanks, sign == "-", t)
  {
  }

  lemma {:induction false} DigitsAt(s: string, j: nat, t: string, base: nat)
    requires AllDigits(t, base) && |s| == j + |t| && forall m :: j <= m < |s| ==> s[m] == t[m - j]
    ensures forall m :: j <= m < |s| ==> DigitOf(s[m]) < base && s[m] != 'x'
  {
  }

  lemma {:induction false} ReadPlaced(s: string, blanks: nat, neg: bool, t: string, base: nat)
    requires IsBase(base) && AllDigits(t, base) && PlacedIn(s, blanks, neg, t)
    ensures var v: int := Value(t, base); Parsed(s, base) == (Wrap(if neg then -v else v), |s|)
  {
    var j := if neg then blanks + 1 else blanks;
    assert DigitOf(t[0]) < base;
    DigitsAt(s, j, t, base);
    DigitsFollow(s, base, blanks, j);
  }

  lemma {:induction false} PlainText(num: nat, base: nat, width: int, padc: char)
    requires 2 <= base <= 16
    ensures NumText(num, base, width, padc) != ""
    ensures width <= |Digits(num, base)| ==> NumText(num, base, width, padc) == Digits(num, base)
    ensures padc == '0' ==> AllDigits(NumText(num, base, width, '0'), base) && Value(NumText(num, base, width, '0'), base) == num
  {
    DigitsAre(num, base);
    DigitsValue(num, base);
    ZerosValue(|Padding(width, |Digits(num, base)|, '0')|, Digits(num, base), base);
  }

  // %u, %o and %x: padded with blanks or zeros, every number is read back, modulo 2^32.
  lemma {:induction false} PrintThenRead(num: nat, base: nat, width: int, padc: char)
    requires IsBase(base) && (padc == ' ' || padc == '0')
    ensures var s := PieceText(Unsigned(num, base, width, padc)); Parsed(s, base) == (Wrap(num), |s|)
  {
    var s, d := NumText(num, base, width, padc), Digits(num, base);
    PlainText(num, base, width, padc);
    DigitsAre(num, base);
    DigitsValue(num, base);
    if padc == '0' {
      ReadBack(0, "", s, base);
      assert Repeat(' ', 0) + "" + s == s;
    } else {
      var n := |Padding(width, |d|, ' ')|;
      ReadBack(n, "", d, base);
      assert Repeat(' ', n) + "" + d == s;
    }
  }

  lemma WrapFits(x: int)
    requires -HALF <= x < HALF
    ensures Wrap(x) == x
  {
  }

  lemma {:induction false} NegatedDigits(t: string, base: nat)
    requires IsBase(base) && AllDigits(t, base) && t != ""
    ensures Parsed("-" + t, base).0 == Wrap(0 - Value(t, base))
  {
    ReadBack(0, "-", t, base);
    assert Repeat(' ', 0) + "-" + t == "-" + t;
  }

  // One dash negates the number, more hide it.
  lemma {:induction false} OneDash(num: nat, base: nat, width: int)
    requires IsBase(base) && width == |Digits(num, base)| + 1
    ensures Parsed(NumText(num, base, width, '-'), base).0 == Wrap(0 - num)
  {
    var d := Digits(num, base);
    DigitsAre(num, base);
    DigitsValue(num, base);
    NegatedDigits(d, base);
    assert NumText(num, base, width, '-') == "-" + d;
  }

  lemma {:induction false} MoreDashes(num: nat, base: nat, width: int)
    requires IsBase(base) && width > |Digits(num, base)| + 1
    ensures Parsed(NumText(num, base, width, '-'), base).0 == 0
  {
    NothingRead(NumText(num, base, width, '-'), base);
  }

  lemma {:induction false} Unpadded(num: nat, base: nat, width: int, padc: char)
    requires IsBase(base) && width <= |Digits(num, base)|
    ensures Parsed(NumText(num, base, width, padc), base).0 == Wrap(num)
  {
    PlainText(num, base, width, padc);
    PlainText(num, base, width, ' ');
    PrintThenRead(num, base, width, ' ');
  }

  // A number is read back exactly if it fits a long and, with the '-' flag, nothing is padded.
  lemma {:induction false} UnsignedRoundTrip(num: nat, base: nat, width: int, padc: char)
    requires IsBase(base) && padc in {' ', '0', '-'}
    ensures Parsed(PieceText(Unsigned(num, base, width, padc)), base).0 == num
            <==> num < HALF && (padc != '-' || width <= |Digits(num, base)| || num == 0)
  {
    if num < HALF {
      NumRoundTrip(num, base, width, padc);
    }
  }

  lemma {:induction false} NumRoundTrip(num: nat, base: nat, width: int, padc: char)
    requires IsBase(base) && num < HALF && padc in {' ', '0', '-'}
    ensures Parsed(NumText(num, base, width, padc), base).0 == num
            <==> padc != '-' || width <= |Digits(num, base)| || num == 0
  {
    WrapFits(num);
    WrapFits(0 - num);
    if padc != '-' {
      PrintThenRead(num, base, width, padc);
    } else if width <= |Digits(num, base)| {
      Unpadded(num, base, width, padc);
    } else if width == |Digits(num, base)| + 1 {
      OneDash(num, base, width);
    } else {
      MoreDashes(num, base, width);
    }
  }

  // The digits of -v, read after a minus sign
  lemma {:induction false} ReadsNegative(t: string, v: int)
    requires AllDigits(t, 10) && t != "" && -HALF <= v < 0 && Value(t, 10) == -v
    ensures Parsed("-" + t, 10).0 == v
  {
    NegatedDigits(t, 10);
    WrapFits(v);
  }

  lemma {:induction false} BareText(num: nat, width: int, padc: char)
    requires width <= |Digits(num, 10)|
    ensures var t := NumText(num, 10, width, padc); AllDigits(t, 10) && t != "" && Value(t, 10) == num
  {
    PlainText(num, 10, width, padc);
    DigitsAre(num, 10);
    DigitsValue(num, 10);
  }

  lemma {:induction false} NegativeBare(v: int, width: int, padc: char)
    requires -HALF <= v < 0 && width <= |Digits(-v, 10)|
    ensures Parsed("-" + NumText(-v, 10, width, padc), 10).0 == v
  {
    BareText(-v, width, padc);
    ReadsNegative(NumText(-v, 10, width, padc), v);
  }

  lemma {:induction false} NegativeZeros(v: int, width: int)
    requires -HALF <= v < 0
    ensures Parsed("-" + NumText(-v, 10, width, '0'), 10).0 == v
  {
    var t := NumText(-v, 10, width, '0');
    assert AllDigits(t, 10) && t != "" && Value(t, 10) == -v by { PlainText(-v, 10, width, '0'); }
    ReadsNegative(t, v);
  }

  lemma {:induction false} NegativeHidden(num: nat, width: int, padc: char)
    requires (padc == ' ' || padc == '-') && width > |Digits(num, 10)|
    ensures Parsed("-" + NumText(num, 10, width, padc), 10).0 == 0
  {
    NothingRead("-" + NumText(num, 10, width, padc), 10);
  }

  lemma {:induction false} NegativeRoundTrip(v: int, width: int, padc: char)
    requires -HALF <= v < 0 && padc in {' ', '0', '-'}
    ensures Parsed("-" + NumText(-v, 10, width, padc), 10).0 == v <==> padc == '0' || width <= |Digits(-v, 10)|
  {
    if padc == '0' {
      NegativeZeros(v, width);
    } else if width <= |Digits(-v, 10)| {
      NegativeBare(v, width, padc);
    } else {
      NegativeHidden(-v, width, padc);
    }
  }

  // %d: a number is read back exactly if it fits a long and, if negative, is not padded with anything but zeros.
  lemma {:induction false} SignedRoundTrip(v: int, width: int, padc: char)
    requires padc in {' ', '0', '-'}
    ensures Parsed(PieceText(Signed(v, width, padc)), 10).0 == v <==> -HALF <= v < HALF && ReadsBack(v, width, padc)
  {
    assert v < 0 ==> PieceText(Signed(v, width, padc)) == "-" + NumText(-v, 10, width, padc);
    if 0 <= v < HALF {
      NumRoundTrip(v, 10, width, padc);
    } else if -HALF <= v < 0 {
      NegativeRoundTrip(v, width, padc);
    }
  }

  predicate ReadsBack(v: int, width: int, padc: char) {
    if v >= 0 then padc != '-' || width <= |Digits(v, 10)| || v == 0
    else padc == '0' || width <= |Digits(-v, 10)|
  }

  // A prefix of p characters, and digits of base b to the end
  lemma {:induction false} AfterPrefix(pre: string, t: string, base: nat, b: nat)
    requires (forall i :: 0 <= i < |t| ==> DigitOf(t[i]) < b) && (pre == "0x" || pre == "0" || (pre == "" && t != ""))
    requires if pre == "0x" then (base == 0 || base == 16) && b == 16
             else if pre == "0" then base == 0 && b == 8
             else t[0] != '0' && base == 0 && b == 10
    ensures Parsed(pre + t, base) == (Wrap(Value(t, b)), |pre + t|)
  {
    var s := pre + t;
    assert s[|pre|..|s|] == t;
    assert |pre| < |s| ==> s[|pre|] == t[0] && DigitOf(t[0]) < b;
    ReadAsLaidOut(s, base, Layout(0, 0, |pre|, |s|, b));
  }

  // %p: "0x", and the number unless padding other than zeros follows that prefix
  lemma {:induction false} PointerRoundTrip(a: nat, width: int, padc: char, base: nat)
    requires padc in {' ', '0', '-'} && (base == 0 || base == 16)
    ensures var s := PieceText(Pointer(a, width, padc));
            |s| > 2 && s[0] == '0' && s[1] == 'x'
            && (padc == '0' || width <= |Digits(a, 16)| ==> Parsed(s, base) == (Wrap(a), |s|))
            && (padc != '0' && width > |Digits(a, 16)| ==> Parsed(s, base) == (0, 2))
  {
    var t := NumText(a, 16, width, padc);
    PlainText(a, 16, width, padc);
    DigitsAre(a, 16);
    DigitsValue(a, 16);
    if padc == '0' || width <= |Digits(a, 16)| {
      AfterPrefix("0x", t, base, 16);
    } else {
      PrefixOnly(t, base);
    }
  }

  lemma {:induction false} PrefixOnly(t: string, base: nat)
    requires t != "" && DigitOf(t[0]) == 36 && (base == 0 || base == 16)
    ensures Parsed("0x" + t, base) == (0, 2)
  {
    var s := "0x" + t;
    assert s[2] == t[0] && s[2..2] == "";
    ReadAsLaidOut(s, base, Layout(0, 0, 2, 2, 16));
  }

  // ---------- capital letters, prefixes and base 0 ----------

  // u is t with some letters written as capitals.
  predicate AnyCase(u: string, t: string) {
    |u| == |t| && forall i :: 0 <= i < |t| ==> DigitOf(t[i]) < 36 && (u[i] == t[i] || u[i] == CapitalChar(DigitOf(t[i])))
  }

  lemma {:induction false} CaseValue(u: string, t: string, base: nat)
    requires AnyCase(u, t)
    ensures Value(u, base) == Value(t, base) && forall i :: 0 <= i < |t| ==> DigitOf(u[i]) == DigitOf(t[i])
    decreases |t|
  {
    if t != "" {
      CaseValue(u[..|t| - 1], t[..|t| - 1], base);
      DigitTable(u[|t| - 1], DigitOf(t[|t| - 1]));
    }
    forall i | 0 <= i < |t| ensures DigitOf(u[i]) == DigitOf(t[i]) {
      DigitTable(u[i], DigitOf(t[i]));
    }
  }

  // Hexadecimal digits are read in either case, with or without the prefix "0x".
  lemma {:induction false} HexRoundTrip(num: nat, u: string)
    requires AnyCase(u, Digits(num, 16))
    ensures Parsed(u, 16) == (Wrap(num), |u|) && Parsed("0x" + u, 16) == Parsed("0x" + u, 0) == (Wrap(num), |u| + 2)
  {
    DigitsAre(num, 16);
    DigitsValue(num, 16);
    CaseValue(u, Digits(num, 16), 16);
    HexDigits(u);
    AfterPrefix("0x", u, 16, 16);
    AfterPrefix("0x", u, 0, 16);
  }

  lemma {:induction false} HexDigits(u: string)
    requires u != "" && forall i :: 0 <= i < |u| ==> DigitOf(u[i]) < 16
    ensures Parsed(u, 16) == (Wrap(Value(u, 16)), |u|)
  {
    assert u[0..|u|] == u && DigitOf(u[0]) < 16;
    assert |u| > 1 ==> DigitOf(u[1]) < 16;
    ReadAsLaidOut(u, 16, Layout(0, 0, 0, |u|, 16));
  }

  // Against the description of strtol, "0X" is no prefix: only the 0 is read.
  lemma {:induction false} CapitalPrefix(u: string, base: nat)
    requires base == 0 || base == 16
    ensures Parsed("0X" + u, base) == (0, 1)
  {
    var s := "0X" + u;
    assert s[0] == '0' && s[1] == 'X';
    if base == 0 {
      ZeroOctal(s);
    } else {
      ZeroHex(s);
    }
  }

  lemma {:induction false} ZeroOctal(s: string)
    requires |s| > 1 && s[0] == '0' && s[1] == 'X'
    ensures Parsed(s, 0) == (0, 1)
  {
    assert s[1..1] == "";
    ReadAsLaidOut(s, 0, Layout(0, 0, 1, 1, 8));
  }

  lemma {:induction false} ZeroHex(s: string)
    requires |s| > 1 && s[0] == '0' && s[1] == 'X'
    ensures Parsed(s, 16) == (0, 1)
  {
    ValueSnoc("", '0', 16);
    assert s[0..1] == "" + ['0'];
    ReadAsLaidOut(s, 16, Layout(0, 0, 0, 1, 16));
  }

  lemma {:induction false} NoLeadingZero(num: nat, base: nat)
    requires 2 <= base <= 16
    ensures num > 0 ==> Digits(num, base)[0] != '0'
    decreases num
  {
    if num >= base {
      DigitSplit(num, base);
      Quotient(num / base, num % base, base, num);
      NoLeadingZero(num / base, base);
    }
  }

  // Base 0: a leading 0 makes it octal, otherwise it is decimal.
  lemma {:induction false} BaseZeroRoundTrip(num: nat)
    ensures var s := "0" + Digits(num, 8); Parsed(s, 0) == (Wrap(num), |s|)
    ensures var s := Digits(num, 10); Parsed(s, 0) == (Wrap(num), |s|)
  {
    DigitsAre(num, 8);
    DigitsValue(num, 8);
    AfterPrefix("0", Digits(num, 8), 0, 8);
    DigitsAre(num, 10);
    DigitsValue(num, 10);
    if num > 0 {
      NoLeadingZero(num, 10);
      AfterPrefix("", Digits(num, 10), 0, 10);
      assert "" + Digits(num, 10) == Digits(num, 10);
    } else {
      AfterPrefix("0", "", 0, 8);
      assert Digits(num, 10) == "0" + "";
    }
  }

  // ---------- what is printed ----------

  // t is how n is written in that base: lower case, and without leading zeros.
  ghost predicate Writes(t: string, base: nat, n: nat) {
    t != "" && Value(t, base) == n && (|t| > 1 ==> t[0] != '0')
    && forall i :: 0 <= i < |t| ==> DigitOf(t[i]) < base && !('A' <= t[i] <= 'Z')
  }

  // There is one way to write a number.
  lemma {:induction false} WrittenOnce(t: string, base: nat, n: nat)
    requires 2 <= base <= 16 && Writes(t, base, n)
    ensures t == Digits(n, base)
    decreases |t|
  {
    var m := |t| - 1;
    LastDigit(t, base, n);
    assert t == t[..m] + [t[m]];
    if m > 0 {
      WrittenOnce(t[..m], base, n / base);
    }
  }

  lemma {:induction false} LastDigit(t: string, base: nat, n: nat)
    requires 2 <= base <= 16 && Writes(t, base, n)
    ensures var m := |t| - 1;
            n % base < base && t[m] == DigitChar(n % base)
            && if m > 0 then n >= base && Writes(t[..m], base, n / base) else n < base && n % base == n
  {
    var m := |t| - 1;
    var front, last := t[..m], DigitOf(t[m]);
    assert n == Value(front, base) * base + last by {
      assert t == front + [t[m]];
      ValueSnoc(front, t[m], base);
    }
    DigitTable(t[m], last);
    if m > 0 {
      FrontWrites(t, base, n);
      DivRem(Value(front, base), last, base, n);
    } else {
      assert front == "";
      DigitSplit(n, base);
    }
  }

  lemma {:induction false} FrontWrites(t: string, base: nat, n: nat)
    requires 2 <= base <= 16 && Writes(t, base, n) && |t| > 1
    ensures Writes(t[..|t| - 1], base, Value(t[..|t| - 1], base)) && Value(t[..|t| - 1], base) > 0
  {
    LeadingCounts(t[..|t| - 1], base);
  }

  lemma {:induction false} LeadingCounts(t: string, base: nat)
    requires base >= 2 && t != "" && t[0] != '0' && DigitOf(t[0]) < base
    ensures Value(t, base) > 0
    decreases |t|
  {
    var m := |t| - 1;
    assert t == t[..m] + [t[m]];
    ValueSnoc(t[..m], t[m], base);
    if m > 0 {
      LeadingCounts(t[..m], base);
      MulMono(1, Value(t[..m], base), base);
    } else {
      DigitTable(t[0], 0);
    }
  }

  lemma DivRem(q: nat, m: nat, base: nat, n: nat)
    requires n == q * base + m && m < base && q > 0
    ensures n / base == q && n % base == m && n >= base
  {
    DivMod(n, base);
    MulMono(1, q, base);
    if q < n / base {
      MulMono(q + 1, n / base, base);
    } else if n / base < q {
      MulMono(n / base + 1, q, base);
    }
  }

  lemma {:induction false} DigitsWrite(num: nat, base: nat)
    requires 2 <= base <= 16
    ensures Writes(Digits(num, base), base, num)
    decreases num
  {
    DigitsAre(num, base);
    DigitsValue(num, base);
    NoLeadingZero(num, base);
    LowerCase(num, base);
  }

  lemma {:induction false} LowerCase(num: nat, base: nat)
    requires 2 <= base <= 16
    ensures forall i :: 0 <= i < |Digits(num, base)| ==> !('A' <= Digits(num, base)[i] <= 'Z')
    decreases num
  {
    DigitSplit(num, base);
    if num >= base {
      LowerCase(num / base, base);
    }
  }

  // The number of a piece, its base and the characters before it
  function NumberOf(p: Piece): nat { match p case Literal(_) => 0 case Signed(v, _, _) => if v < 0 then -v else v
                                             case Unsigned(n, _, _, _) => n case Pointer(a, _, _) => a }

  // A number is printed as its sign or prefix, padding up to the width, and the one way to write it.
  lemma {:induction false} PrintedAs(p: Piece, pad: string, t: string)
    requires PieceOk(p) && !p.Literal?
    requires var base := if p.Signed? then 10 else if p.Pointer? then 16 else p.base; Writes(t, base, NumberOf(p))
    requires |pad| == (if p.width > |t| then p.width - |t| else 0) && forall i :: 0 <= i < |pad| ==> pad[i] == p.padc
    ensures PieceText(p) == (if p.Signed? && p.value < 0 then "-" else if p.Pointer? then "0x" else "") + (pad + t)
  {
    var base := if p.Signed? then 10 else if p.Pointer? then 16 else p.base;
    NumberText(pad, t, base, NumberOf(p), p.width, p.padc);
    assert "" + (pad + t) == pad + t;
  }

  lemma {:induction false} NumberText(pad: string, t: string, base: nat, n: nat, width: int, padc: char)
    requires 2 <= base <= 16 && Writes(t, base, n)
    requires |pad| == (if width > |t| then width - |t| else 0) && forall i :: 0 <= i < |pad| ==> pad[i] == padc
    ensures NumText(n, base, width, padc) == pad + t
  {
    WrittenOnce(t, base, n);
    assert pad == Padding(width, |t|, padc);
  }
}
