/**
 * The parts of the C standard I/O library that the index code relies on:
 * the directives of fscanf it uses (`%49s`, `%d`, `%[^;]`, a white-space
 * directive and literal characters) and the decimal output of `%d` in
 * fprintf. An input stream is represented by the text not yet read; every
 * scanning function returns what it converted and the text left unread.
 */
module Stdio {
  import opened Wrappers

  /** `isspace` in the C locale: the blank, and tab, newline, vertical tab,
      form feed and carriage return, which are the codes 9 to 13. */
  predicate IsSpace(c: char) {
    c == ' ' || '\t' <= c <= '\r'
  }

  predicate IsDigit(c: char) {
    '0' <= c <= '9'
  }

  /** The character classes the conversions read runs of. */
  datatype Class = NonWhite | Decimal | NonSemicolon

  predicate InClass(c: char, k: Class) {
    match k
    case NonWhite => !IsSpace(c)
    case Decimal => IsDigit(c)
    case NonSemicolon => c != ';'
  }

  /** A conversion's result and the stream after it. */
  datatype Scanned<T> = Scanned(value: Option<T>, rest: string)

  /** The length of the longest prefix of `s` whose characters are all in class `k`. */
  function Span(s: string, k: Class): (n: nat)
    ensures n <= |s|
    ensures forall j :: 0 <= j < n ==> InClass(s[j], k)
    ensures n == |s| || !InClass(s[n], k)
  {
    if s == [] || !InClass(s[0], k) then 0 else 1 + Span(s[1..], k)
  }

  /** A white-space directive: reads zero or more white-space characters. */
  function SkipSpace(s: string): (r: string)
    ensures |r| <= |s|
  {
    if |s| > 0 && IsSpace(s[0]) then SkipSpace(s[1..]) else s
  }

  /** What the directive reads is white space, and it stops at the first
      other character. */
  lemma {:induction false} SkipSpaceSpec(s: string)
    ensures SkipSpace(s) == s[|s| - |SkipSpace(s)|..]
    ensures SkipSpace(s) == [] || !IsSpace(SkipSpace(s)[0])
    ensures forall j :: 0 <= j < |s| - |SkipSpace(s)| ==> IsSpace(s[j])
    decreases |s|
  {
    if |s| > 0 && IsSpace(s[0]) {
      SkipSpaceSpec(s[1..]);
    }
  }

  lemma SkipSpaceNone(s: string)
    requires s == [] || !IsSpace(s[0])
    ensures SkipSpace(s) == s
  {
  }

  lemma SkipSpaceOne(c: char, s: string)
    requires IsSpace(c)
    ensures SkipSpace([c] + s) == SkipSpace(s)
  {
    assert ([c] + s)[1..] == s;
  }

  function Min(a: int, b: int): int {
    if a < b then a else b
  }

  /** The maximum field width of the `%49s` conversion used to read words. */
  const TokenWidth := 49

  /** `%49s`: skip white space, then read one to 49 non-white-space characters.
      None means the end of the stream came before any character: fscanf
      returns EOF. */
  function ScanToken(s: string): (r: Option<(string, string)>)
    ensures r.None? <==> SkipSpace(s) == []
    ensures r.Some? ==> |r.value.1| < |s|
  {
    var t := SkipSpace(s);
    if t == [] then None
    else
      var n := Min(Span(t, NonWhite), TokenWidth);
      Some((t[..n], t[n..]))
  }

  /** What a token is: the next 1 to 49 characters after the white space,
      none of them white space, ending at white space, at the end of the
      text or at the width limit. */
  lemma ScanTokenSpec(s: string, w: string, rest: string)
    requires ScanToken(s) == Some((w, rest))
    ensures 0 < |w| <= TokenWidth && SkipSpace(s) == w + rest
    ensures forall j :: 0 <= j < |w| ==> !IsSpace(w[j])
    ensures |w| == TokenWidth || rest == [] || IsSpace(rest[0])
  {
    var t := SkipSpace(s);
    SkipSpaceSpec(s);
    var n := Min(Span(t, NonWhite), TokenWidth);
    assert w == t[..n] && rest == t[n..];
    assert t == w + rest;
  }

  // ---------------------------------------------------------------- decimal numbers

  function DigitValue(c: char): nat
    requires IsDigit(c)
  {
    c as int - '0' as int
  }

  function DigitChar(d: nat): (c: char)
    requires d < 10
    ensures IsDigit(c) && DigitValue(c) == d
  {
    ('0' as int + d) as char
  }

  predicate AllDigits(s: string) {
    forall j :: 0 <= j < |s| ==> IsDigit(s[j])
  }

  /** The value of a string of decimal digits, most significant first. */
  function DigitsValue(s: string): nat
    requires AllDigits(s)
  {
    if s == [] then 0 else 10 * DigitsValue(s[..|s| - 1]) + DigitValue(s[|s| - 1])
  }

  /** The digits `%d` prints for a non-negative number. */
  function NatToString(n: nat): (s: string)
    ensures |s| > 0 && AllDigits(s)
    ensures DigitsValue(s) == n
  {
    if n < 10 then [DigitChar(n)]
    else
      var s := NatToString(n / 10) + [DigitChar(n % 10)];
      assert s[..|s| - 1] == NatToString(n / 10);
      s
  }

  /** The text `%d` prints for any number. */
  function IntToString(n: int): (s: string)
    ensures |s| > 0 && (IsDigit(s[0]) || s[0] == '-')
  {
    if n < 0 then "-" + NatToString(-n) else NatToString(n)
  }

  /** `%d`: skip white space, then read a number. */
  function ScanInt(s: string): (r: Scanned<int>)
    ensures |r.rest| <= |s|
  {
    ScanNumber(SkipSpace(s))
  }

  /** An optional sign and one or more digits. When no digit follows, the
      conversion fails and the stream stays after the sign, at the first
      character that cannot continue a number. */
  function ScanNumber(s: string): (r: Scanned<int>)
    ensures |r.rest| <= |s|
  {
    var signed := |s| > 0 && (s[0] == '-' || s[0] == '+');
    var u := if signed then s[1..] else s;
    var n := Span(u, Decimal);
    if n == 0 then Scanned(None, u)
    else
      var v: int := DigitsValue(u[..n]);
      Scanned(Some(if signed && s[0] == '-' then -v else v), u[n..])
  }

  /** `%d` reads back exactly the number `%d` printed, stopping at the first
      character that is not a digit. */
  lemma ScanIntToString(n: int, rest: string)
    requires rest == [] || !IsDigit(rest[0])
    ensures ScanInt(IntToString(n) + rest) == Scanned(Some(n), rest)
  {
    SkipSpaceNone(IntToString(n) + rest);
    if n < 0 {
      var d := NatToString(-n);
      ScanUnsigned(d, rest);
      ScanMinus(d + rest);
      ConcatAssoc("-", d, rest);
    } else {
      ScanUnsigned(NatToString(n), rest);
    }
  }

  /** Digits with no sign in front read back as their value. */
  lemma ScanUnsigned(d: string, rest: string)
    requires |d| > 0 && AllDigits(d)
    requires rest == [] || !IsDigit(rest[0])
    ensures ScanNumber(d + rest) == Scanned(Some(DigitsValue(d) as int), rest)
  {
    var u := d + rest;
    assert u[0] != '-' && u[0] != '+';
    SpanDigits(d, rest);
    assert u[..|d|] == d && u[|d|..] == rest;
  }

  /** A minus sign in front of a digit negates the number read after it. */
  lemma ScanMinus(u: string)
    requires |u| > 0 && IsDigit(u[0])
    ensures ScanNumber(u).value.Some?
    ensures ScanNumber("-" + u) == Scanned(Some(-ScanNumber(u).value.value), ScanNumber(u).rest)
  {
    assert ("-" + u)[1..] == u;
  }

  lemma {:induction false} SpanDigits(d: string, rest: string)
    requires AllDigits(d)
    requires rest == [] || !IsDigit(rest[0])
    ensures Span(d + rest, Decimal) == |d|
  {
    if d != [] {
      assert (d + rest)[1..] == d[1..] + rest;
      SpanDigits(d[1..], rest);
    } else {
      assert d + rest == rest;
    }
  }

  // ---------------------------------------------------------------- other directives

  /** `%[^;]`: read one or more characters other than ';'. White space is not
      skipped. With no such character the conversion fails. */
  function ScanSet(s: string): (r: Scanned<string>)
    ensures |r.rest| <= |s|
    ensures r.value.Some? ==> s == r.value.value + r.rest && |r.value.value| > 0
    ensures r.value.Some? ==> (forall j :: 0 <= j < |r.value.value| ==> r.value.value[j] != ';')
    ensures r.value.Some? ==> r.rest == [] || r.rest[0] == ';'
  {
    var n := Span(s, NonSemicolon);
    if n == 0 then Scanned(None, s)
    else
      assert s == s[..n] + s[n..];
      Scanned(Some(s[..n]), s[n..])
  }

  predicate NoSemicolon(s: string) {
    forall j :: 0 <= j < |s| ==> s[j] != ';'
  }

  /** `%[^;]` reads back a non-empty field free of ';' up to the separator. */
  lemma {:induction false} ScanSetField(w: string, rest: string)
    requires |w| > 0 && NoSemicolon(w)
    ensures ScanSet(w + ";" + rest) == Scanned(Some(w), ";" + rest)
  {
    SpanField(w, ";" + rest);
    assert (w + ";" + rest)[..|w|] == w;
    assert (w + ";" + rest)[|w|..] == ";" + rest;
  }

  lemma {:induction false} SpanField(w: string, rest: string)
    requires NoSemicolon(w) && |rest| > 0 && rest[0] == ';'
    ensures Span(w + rest, NonSemicolon) == |w|
  {
    if w != [] {
      assert (w + rest)[1..] == w[1..] + rest;
      SpanField(w[1..], rest);
    } else {
      assert w + rest == rest;
    }
  }

  /** A literal character in a format: it must be the next character. */
  function Literal(s: string, c: char): (r: Option<string>)
    ensures r.Some? ==> |s| > 0 && s[0] == c && r.value == s[1..]
    ensures r.None? <==> (|s| == 0 || s[0] != c)
  {
    if |s| > 0 && s[0] == c then Some(s[1..]) else None
  }

  /** A trailing literal whose failure no longer changes fscanf's result: the
      character is consumed when present, and the stream is left as is otherwise. */
  function OptionalLiteral(s: string, c: char): (r: string)
    ensures |r| <= |s|
  {
    if |s| > 0 && s[0] == c then s[1..] else s
  }

  /** Regrouping a concatenation. The output and the backup text are built by
      appending; stating this step as a separate lemma keeps each proof that
      regroups an appended text small. */
  lemma ConcatAssoc<T>(a: seq<T>, b: seq<T>, c: seq<T>)
    ensures a + (b + c) == (a + b) + c
  {
  }

  /** A non-empty sequence is its first element followed by the rest, for
      membership and for multiplicities. */
  lemma HeadTail<T>(s: seq<T>, x: T)
    requires s != []
    ensures x in s <==> x == s[0] || x in s[1..]
    ensures multiset(s)[x] == (if x == s[0] then 1 else 0) + multiset(s[1..])[x]
  {
    assert s == [s[0]] + s[1..];
  }
}
