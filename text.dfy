/**
 * String operations the Rust source takes from its standard library and from
 * small regular expressions: `str::split` on a character, `str::lines`,
 * `str::trim`, `starts_with`/`ends_with`/`find`, and decimal formatting.
 * Strings are sequences of Unicode scalar values, as Rust's `str` is.
 */
module Text {

  // ---------------------------------------------------------------- searching

  predicate StartsWith(s: string, p: string) {
    |p| <= |s| && s[..|p|] == p
  }

  predicate EndsWith(s: string, p: string) {
    |p| <= |s| && s[|s| - |p|..] == p
  }

  predicate OccursAt(s: string, p: string, i: int) {
    0 <= i && i + |p| <= |s| && s[i..i + |p|] == p
  }

  /** `s.find(p).is_some()` */
  predicate Contains(s: string, p: string) {
    exists i | 0 <= i <= |s| :: OccursAt(s, p, i)
  }

  // ------------------------------------------------------------ char classes

  predicate IsAscii(c: char) {
    (c as int) < 128
  }

  predicate AllAscii(s: string) {
    forall i :: 0 <= i < |s| ==> IsAscii(s[i])
  }

  /** `[A-Za-z0-9]`, also the alphabet of `rand::distributions::Alphanumeric` */
  predicate IsAsciiAlnum(c: char) {
    ('A' <= c <= 'Z') || ('a' <= c <= 'z') || ('0' <= c <= '9')
  }

  predicate AllAsciiAlnum(s: string) {
    forall i :: 0 <= i < |s| ==> IsAsciiAlnum(s[i])
  }

  /** The regex class `[[:word:]]`, that is `[0-9A-Za-z_]` */
  predicate IsWordChar(c: char) {
    IsAsciiAlnum(c) || c == '_'
  }

  /** Unicode's White_Space property: Rust's `char::is_whitespace` and the regex class `\s`. */
  predicate IsWhitespace(c: char) {
    var n := c as int;
    (9 <= n <= 13) || n == 0x20 || n == 0x85 || n == 0xA0 || n == 0x1680 ||
    (0x2000 <= n <= 0x200A) || n == 0x2028 || n == 0x2029 || n == 0x202F ||
    n == 0x205F || n == 0x3000
  }

  // --------------------------------------------------------------- splitting

  /**
   * `s.split(sep)`: the pieces between occurrences of `sep`. Like Rust's, it
   * yields at least one piece (`"".split(',')` yields `[""]`).
   */
  function Split(s: string, sep: char): (r: seq<string>)
    ensures |r| >= 1
    ensures forall k :: 0 <= k < |r| ==> sep !in r[k]
  {
    if |s| == 0 then [""]
    else
      var rest := Split(s[1..], sep);
      if s[0] == sep then [""] + rest else [[s[0]] + rest[0]] + rest[1..]
  }

  /** A string without the separator is a single piece. */
  lemma {:induction false} SplitNoSeparator(s: string, sep: char)
    requires sep !in s
    ensures Split(s, sep) == [s]
  {
    if |s| > 0 {
      SplitNoSeparator(s[1..], sep);
      assert [s[0]] + s[1..] == s;
    }
  }

  /** One separator ends the pieces of `a` and starts those of `b`. */
  lemma {:induction false} SplitAround(a: string, b: string, sep: char)
    ensures Split(a + [sep] + b, sep) == Split(a, sep) + Split(b, sep)
  {
    var s := a + [sep] + b;
    if |a| == 0 {
      assert s[1..] == b;
    } else {
      assert s[1..] == a[1..] + [sep] + b;
      SplitAround(a[1..], b, sep);
    }
  }

  /** `xs.join(sep)` */
  function Join(xs: seq<string>, sep: string): string
  {
    if |xs| == 0 then ""
    else if |xs| == 1 then xs[0]
    else xs[0] + sep + Join(xs[1..], sep)
  }

  /** Joining grows at the end one separator and one item at a time. */
  lemma {:induction false} JoinSnoc(xs: seq<string>, x: string, sep: string)
    requires |xs| >= 1
    ensures Join(xs + [x], sep) == Join(xs, sep) + sep + x
  {
    if |xs| == 1 {
      assert (xs + [x])[1..] == [x];
    } else {
      assert (xs + [x])[1..] == xs[1..] + [x];
      JoinSnoc(xs[1..], x, sep);
    }
  }

  /** A non-empty sequence is its front followed by its last element. */
  lemma LastSplit<T>(s: seq<T>)
    requires |s| > 0
    ensures s == s[..|s| - 1] + [s[|s| - 1]]
  {
  }

  /** Dropping a first character that cannot start `x` leaves whether the string ends with `x` unchanged. */
  lemma EndsWithTail(s: string, x: string)
    requires |s| > 0 && |x| > 0 && s[0] != x[0]
    ensures EndsWith(s[1..], x) <==> EndsWith(s, x)
  {
    if EndsWith(s, x) {
      assert |x| < |s|;
      assert s[1..][|s| - 1 - |x|..] == s[|s| - |x|..];
    }
    if EndsWith(s[1..], x) {
      assert s[1..][|s| - 1 - |x|..] == s[|s| - |x|..];
    }
  }

  lemma ConcatAssoc<T>(a: seq<T>, b: seq<T>, c: seq<T>)
    ensures a + b + c == a + (b + c)
  {
  }

  lemma PrefixIndex<T>(s: seq<T>, n: nat, k: nat)
    requires k < n <= |s|
    ensures s[..n][k] == s[k]
  {
  }

  /** A character in neither the items nor the separator is not in their join. */
  lemma {:induction false} JoinExcludes(xs: seq<string>, sep: string, c: char)
    requires c !in sep
    requires forall k :: 0 <= k < |xs| ==> c !in xs[k]
    ensures c !in Join(xs, sep)
  {
    if |xs| > 1 {
      JoinExcludes(xs[1..], sep, c);
    }
  }

  /** Drops one `'\r'` at the end of a line. */
  function StripCr(l: string): string {
    if |l| > 0 && l[|l| - 1] == '\r' then l[..|l| - 1] else l
  }

  function StripCrAll(ls: seq<string>): (r: seq<string>)
    ensures |r| == |ls|
    ensures forall k :: 0 <= k < |ls| ==> r[k] == StripCr(ls[k])
  {
    if ls == [] then [] else [StripCr(ls[0])] + StripCrAll(ls[1..])
  }

  /**
   * `s.lines()`: split at `'\n'`, drop the empty piece after a final line
   * ending, and drop the `'\r'` of each `"\r\n"` ending (a `'\r'` that ends
   * an unterminated last line stays).
   */
  function Lines(s: string): (r: seq<string>)
    ensures s == "" ==> r == []
  {
    var pieces := Split(s, '\n');
    var last := pieces[|pieces| - 1];
    if last == "" then StripCrAll(pieces[..|pieces| - 1])
    else StripCrAll(pieces[..|pieces| - 1]) + [last]
  }

  /** Lines without any `'\r'` are not changed by the line-ending rule. */
  lemma {:induction false} StripCrAllNoCr(ls: seq<string>)
    requires forall k :: 0 <= k < |ls| ==> '\r' !in ls[k]
    ensures StripCrAll(ls) == ls
  {
    forall k | 0 <= k < |ls| ensures StripCrAll(ls)[k] == ls[k] {
      var l := ls[k];
      if |l| > 0 {
        assert l[|l| - 1] in l;
      }
    }
  }

  // ---------------------------------------------------------------- trimming

  /** `s.trim_start()` */
  function TrimStart(s: string): (r: string)
    ensures |r| <= |s| && r == s[|s| - |r|..]
    ensures forall i :: 0 <= i < |s| - |r| ==> IsWhitespace(s[i])
    ensures r == "" || !IsWhitespace(r[0])
  {
    if |s| > 0 && IsWhitespace(s[0]) then TrimStart(s[1..]) else s
  }

  /** `s.trim_end()` */
  function TrimEnd(s: string): (r: string)
    ensures |r| <= |s| && r == s[..|r|]
    ensures forall i :: |r| <= i < |s| ==> IsWhitespace(s[i])
    ensures r == "" || !IsWhitespace(r[|r| - 1])
  {
    if |s| > 0 && IsWhitespace(s[|s| - 1]) then TrimEnd(s[..|s| - 1]) else s
  }

  /** `s.trim()` */
  function Trim(s: string): string {
    TrimEnd(TrimStart(s))
  }

  /** A string that neither starts nor ends with white space. */
  predicate IsTrimmed(s: string) {
    s == "" || (!IsWhitespace(s[0]) && !IsWhitespace(s[|s| - 1]))
  }

  /** White space in front of a string that does not start with white space is what `trim_start` removes. */
  lemma {:induction false} TrimStartPadded(w: string, u: string)
    requires forall i :: 0 <= i < |w| ==> IsWhitespace(w[i])
    requires u == "" || !IsWhitespace(u[0])
    ensures TrimStart(w + u) == u
  {
    if |w| > 0 {
      assert (w + u)[1..] == w[1..] + u;
      TrimStartPadded(w[1..], u);
    } else {
      assert w + u == u;
    }
  }

  /** Trimming white space put in front of a trimmed string gives the string back. */
  lemma {:induction false} TrimPadded(w: string, u: string)
    requires forall i :: 0 <= i < |w| ==> IsWhitespace(w[i])
    requires IsTrimmed(u)
    ensures Trim(w + u) == u
  {
    if |w| > 0 {
      assert (w + u)[1..] == w[1..] + u;
      TrimPadded(w[1..], u);
    } else {
      assert w + u == u;
    }
  }

  // -------------------------------------------------------------- formatting

  function DigitChar(d: nat): (c: char)
    requires d < 10
    ensures '0' <= c <= '9' && (c as int) - ('0' as int) == d
  {
    (d + '0' as int) as char
  }

  /** The `{}` formatting of an unsigned integer. */
  function NatToDecimal(n: nat): (r: string)
    ensures |r| >= 1
    ensures forall i :: 0 <= i < |r| ==> '0' <= r[i] <= '9'
  {
    if n < 10 then [DigitChar(n)] else NatToDecimal(n / 10) + [DigitChar(n % 10)]
  }

  /** The value of a string of decimal digits. */
  function DecimalValue(s: string): nat
    requires forall i :: 0 <= i < |s| ==> '0' <= s[i] <= '9'
  {
    if s == [] then 0
    else DecimalValue(s[..|s| - 1]) * 10 + ((s[|s| - 1] as int) - ('0' as int))
  }

  /** Formatting loses nothing: reading the digits back gives the number. */
  lemma {:induction false} NatToDecimalValue(n: nat)
    ensures DecimalValue(NatToDecimal(n)) == n
  {
    if n >= 10 {
      NatToDecimalValue(n / 10);
      var s := NatToDecimal(n);
      assert s[..|s| - 1] == NatToDecimal(n / 10);
    }
  }
}
