/**
 Message framing of a connection whose elements are `char`: a header of four characters holding
 the decimal length padded with spaces on the left, followed by the message.
 */
module Framing {
  import opened Machine
  import opened Wrappers

  const HEADER_LENGTH: nat := 4
  const BUFFER_SIZE: nat := 512
  /** `std::string::max_size()`: beyond it `push_back` throws `length_error`. */
  const STRING_MAX: nat := 0x7FFF_FFFF_FFFF_FFFF

  // ---- std::to_string and std::atoll ----

  predicate IsDigit(c: char) { '0' <= c <= '9' }

  function DigitOf(c: char): nat
    requires IsDigit(c)
  {
    c as int - '0' as int
  }

  function CharOf(d: nat): (c: char)
    requires d < 10
    ensures IsDigit(c) && DigitOf(c) == d
  {
    ('0' as int + d) as char
  }

  /** `std::to_string` of a `size_t`. */
  function ToString(n: nat): (s: string)
    ensures s != ""
  {
    if n < 10 then [CharOf(n)] else ToString(n / 10) + [CharOf(n % 10)]
  }

  predicate IsSpace(c: char) { c == ' ' || '\t' <= c <= '\r' }

  function SkipSpaces(s: string): string {
    if s != "" && IsSpace(s[0]) then SkipSpaces(s[1..]) else s
  }

  /** The value of the leading digits of `s`, read after a number whose value is `acc`. */
  function ParseDigits(s: string, acc: nat): nat {
    if s == "" || !IsDigit(s[0]) then acc else ParseDigits(s[1..], 10 * acc + DigitOf(s[0]))
  }

  /** `std::atoll`, on strings too short to overflow. */
  function Atoll(s: string): int {
    var t := SkipSpaces(s);
    if t != "" && t[0] == '-' then 0 - (ParseDigits(t[1..], 0) as int)
    else if t != "" && t[0] == '+' then ParseDigits(t[1..], 0)
    else ParseDigits(t, 0)
  }

  lemma {:induction false} ToStringIsDigits(n: nat)
    ensures forall i :: 0 <= i < |ToString(n)| ==> IsDigit(ToString(n)[i])
  {
    if n >= 10 { ToStringIsDigits(n / 10); }
  }

  lemma {:induction false} ParseAppend(a: string, b: string, acc: nat)
    requires forall i :: 0 <= i < |a| ==> IsDigit(a[i])
    ensures ParseDigits(a + b, acc) == ParseDigits(b, ParseDigits(a, acc))
  {
    if a == "" {
      assert a + b == b;
    } else {
      assert (a + b)[1..] == a[1..] + b;
      ParseAppend(a[1..], b, 10 * acc + DigitOf(a[0]));
    }
  }

  /** Reading the digits of a number gives the number back. */
  lemma {:induction false} ParseUndoesPrint(n: nat)
    ensures ParseDigits(ToString(n), 0) == n
  {
    if n < 10 {
      assert ToString(n)[1..] == "";
    } else {
      var last := [CharOf(n % 10)];
      ToStringIsDigits(n / 10);
      ParseAppend(ToString(n / 10), last, 0);
      ParseUndoesPrint(n / 10);
      assert last[1..] == "";
    }
  }

  function Spaces(k: nat): (s: string)
    ensures |s| == k && forall i :: 0 <= i < k ==> s[i] == ' '
  {
    seq(k, _ => ' ')
  }

  lemma {:induction false} SkipPadding(k: nat, s: string)
    requires s != "" && !IsSpace(s[0])
    ensures SkipSpaces(Spaces(k) + s) == s
  {
    if k == 0 {
      assert Spaces(0) + s == s;
    } else {
      assert (Spaces(k) + s)[1..] == Spaces(k - 1) + s;
      SkipPadding(k - 1, s);
    }
  }

  /** At any width: parsing a space-padded decimal undoes printing it. */
  lemma PaddedRoundTrip(k: nat, n: nat)
    ensures Atoll(Spaces(k) + ToString(n)) == n
  {
    ToStringIsDigits(n);
    SkipPadding(k, ToString(n));
    ParseUndoesPrint(n);
  }

  /** A string of the characters that `atoll` skips. */
  predicate IsBlank(s: string) {
    forall i :: 0 <= i < |s| ==> s[i] in {' ', '\t', '\n', 11 as char, 12 as char, '\r'}
  }

  lemma {:induction false} SkipBlanks(blanks: string, s: string)
    requires IsBlank(blanks) && s != "" && !IsSpace(s[0])
    ensures SkipSpaces(blanks + s) == s
  {
    if blanks == "" {
      assert blanks + s == s;
    } else {
      assert (blanks + s)[1..] == blanks[1..] + s;
      SkipBlanks(blanks[1..], s);
    }
  }

  /** `atoll` reads blanks, a sign and digits, up to the first character that is no digit. */
  lemma AtollReads(blanks: string, sign: string, n: nat, tail: string)
    requires IsBlank(blanks) && sign in {"", "+", "-"} && (tail != "" ==> !('0' <= tail[0] <= '9'))
    ensures Atoll(blanks + (sign + (ToString(n) + tail))) == if sign == "-" then 0 - n else n
  {
    var digits := ToString(n);
    ToStringIsDigits(n);
    SkipBlanks(blanks, sign + (digits + tail));
    ParseAppend(digits, tail, 0);
    ParseUndoesPrint(n);
    hide ToString, ParseDigits, SkipSpaces;
    assert sign == "" ==> sign + (digits + tail) == digits + tail;
    assert sign != "" ==> (sign + (digits + tail))[1..] == digits + tail;
  }

  function Power10(k: nat): nat { if k == 0 then 1 else 10 * Power10(k - 1) }

  lemma {:induction false} PowerGrows(a: nat, b: nat)
    requires a <= b
    ensures Power10(a) <= Power10(b)
  {
    if a < b { PowerGrows(a, b - 1); }
  }

  lemma {:induction false} DigitsRange(s: string, acc: nat)
    ensures ParseDigits(s, acc) < (acc + 1) * Power10(|s|)
  {
    PowerGrows(0, |s|);
    if s != "" && IsDigit(s[0]) {
      var next := 10 * acc + DigitOf(s[0]);
      DigitsRange(s[1..], next);
      TimesGrows(next + 1, 10 * (acc + 1), Power10(|s| - 1));
      assert 10 * (acc + 1) * Power10(|s| - 1) == (acc + 1) * (10 * Power10(|s| - 1));
    } else {
      TimesGrows(1, Power10(|s|), acc + 1);
    }
  }

  lemma TimesGrows(a: nat, b: nat, n: nat)
    requires a <= b
    ensures a * n <= b * n && n * a <= n * b
  {
    assert b * n == a * n + (b - a) * n;
  }

  lemma {:induction false} SkipShortens(s: string)
    ensures |SkipSpaces(s)| <= |s|
  {
    if s != "" && IsSpace(s[0]) { SkipShortens(s[1..]); }
  }

  lemma {:induction false} ToStringWidth(n: nat)
    ensures |ToString(n)| <= HEADER_LENGTH <==> n < 10000
  {
    if n >= 10 {
      assert |ToString(n)| == |ToString(n / 10)| + 1;
      if n >= 100 {
        assert |ToString(n / 10)| == |ToString(n / 100)| + 1;
        if n >= 1000 {
          assert |ToString(n / 100)| == |ToString(n / 1000)| + 1;
        }
      }
    }
  }

  // ---- Frames ----

  function Header(n: nat): (h: string)
    requires n < 10000
    ensures |h| == HEADER_LENGTH
  {
    ToStringWidth(n);
    Spaces(HEADER_LENGTH - |ToString(n)|) + ToString(n)
  }

  lemma LastDigit(n: nat)
    ensures n < 10 ==> ToString(n) == [CharOf(n % 10)]
    ensures n >= 10 ==> ToString(n) == ToString(n / 10) + [CharOf(n % 10)]
  {
  }

  lemma DigitsOf(n: nat)
    requires n < 10000
    ensures ToString(n) ==
      if n < 10 then [CharOf(n % 10)]
      else if n < 100 then [CharOf(n / 10 % 10), CharOf(n % 10)]
      else if n < 1000 then [CharOf(n / 100 % 10), CharOf(n / 10 % 10), CharOf(n % 10)]
      else [CharOf(n / 1000 % 10), CharOf(n / 100 % 10), CharOf(n / 10 % 10), CharOf(n % 10)]
  {
    hide ToString, CharOf;
    assert n / 10 / 10 == n / 100 && n / 100 / 10 == n / 1000;
    LastDigit(n);
    LastDigit(n / 10);
    LastDigit(n / 100);
    LastDigit(n / 1000);
  }

  /** The header, character by character: right-aligned in four places. */
  lemma HeaderDigits(n: nat)
    requires n < 10000
    ensures var d := (k: nat) => ('0' as int + k % 10) as char;
      Header(n) ==
        if n < 10 then "   " + [d(n)]
        else if n < 100 then "  " + [d(n / 10), d(n)]
        else if n < 1000 then " " + [d(n / 100), d(n / 10), d(n)]
        else [d(n / 1000), d(n / 100), d(n / 10), d(n)]
  {
    DigitsOf(n);
    hide ToString;
  }

  function Frame(message: string): string
    requires |message| < 10000
  {
    Header(|message|) + message
  }

  /** The frames of `messages`, laid end to end. */
  function Wire(messages: seq<string>): string
    requires forall m :: m in messages ==> |m| < 10000
  {
    if messages == [] then "" else Frame(messages[0]) + Wire(messages[1..])
  }

  /**
   `WrapWithHeader`.  A length of five digits makes `HEADER_LENGTH - size.length()` wrap around,
   and the padding loop then runs into `length_error`.
   */
  method WrapWithHeader(message: string) returns (r: Result<string>)
    requires |message| < SIZE_T
    ensures |message| < 10000 ==> r == Ok(Frame(message))
    ensures |message| < 10000 ==> |r.value| == 4 + |message| && r.value[4..] == message
    ensures |message| >= 10000 ==> r.Throw?
  {
    ToStringWidth(|message|);
    var size := ToString(|message|);
    ToStringIsShort(|message|);
    var spaces := if |size| <= HEADER_LENGTH then HEADER_LENGTH - |size| else HEADER_LENGTH - |size| + SIZE_T;
    var header := "";
    var i := 0;
    while i < spaces
      invariant 0 <= i <= spaces && header == Spaces(i)
      invariant i <= STRING_MAX
    {
      if |header| == STRING_MAX {
        return Throw("length_error");
      }
      header := header + [' '];
      i := i + 1;
    }
    header := header + size;
    r := Ok(header + message);
  }

  lemma {:induction false} ToStringIsShort(n: nat)
    ensures |ToString(n)| <= 1 + n / 10
  {
    if n >= 10 { ToStringIsShort(n / 10); }
  }
}
