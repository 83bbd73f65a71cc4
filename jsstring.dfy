/**
 * The JavaScript string and number primitives the crawler relies on:
 * `startsWith`, `endsWith`, `includes`, `split` on one character, `trim`,
 * `split(/\s+/)` and `Number(...)` on decimal tokens.
 */
module JsString {

  /** The code points that `String.prototype.trim` removes and the regex class `\s`
      matches: ECMAScript's WhiteSpace and LineTerminator characters. */
  predicate IsWhitespace(c: char) {
    var n := c as int;
    n == 0x09 || n == 0x0A || n == 0x0B || n == 0x0C || n == 0x0D || n == 0x20
    || n == 0xA0 || n == 0x1680 || (0x2000 <= n <= 0x200A)
    || n == 0x2028 || n == 0x2029 || n == 0x202F || n == 0x205F
    || n == 0x3000 || n == 0xFEFF
  }

  predicate NoWhitespace(s: string) {
    forall i :: 0 <= i < |s| ==> !IsWhitespace(s[i])
  }

  predicate AllWhitespace(s: string) {
    forall i :: 0 <= i < |s| ==> IsWhitespace(s[i])
  }

  predicate StartsWith(s: string, prefix: string) {
    |prefix| <= |s| && s[..|prefix|] == prefix
  }

  predicate EndsWith(s: string, suffix: string) {
    |suffix| <= |s| && s[|s| - |suffix|..] == suffix
  }

  /** `s.includes(sub)` */
  predicate Includes(s: string, sub: string) {
    exists i: nat | i <= |s| :: OccursAt(s, sub, i)
  }

  predicate OccursAt(s: string, sub: string, i: nat) {
    i + |sub| <= |s| && s[i..i + |sub|] == sub
  }

  // ---------------------------------------------------------------------
  // s.split(sep) for a one-character separator

  /** `s.split(sep)`: the fields between occurrences of `sep`, in order.
      Like JavaScript, the empty string splits into one empty field. */
  function Split(s: string, sep: char): (fields: seq<string>)
    ensures |fields| >= 1
    ensures forall i :: 0 <= i < |fields| ==> sep !in fields[i]
    decreases |s|
  {
    if s == [] then [[]]
    else
      var rest := Split(s[1..], sep);
      if s[0] == sep then [[]] + rest
      else [[s[0]] + rest[0]] + rest[1..]
  }

  /** `fields.join(sep)`, the inverse of `Split`. */
  function Join(fields: seq<string>, sep: char): string
    requires |fields| >= 1
  {
    if |fields| == 1 then fields[0] else fields[0] + [sep] + Join(fields[1..], sep)
  }

  /** `s.split(sep).at(-1)` */
  function LastField(s: string, sep: char): string {
    var fields := Split(s, sep);
    fields[|fields| - 1]
  }

  lemma {:induction false} SplitThenJoin(s: string, sep: char)
    ensures Join(Split(s, sep), sep) == s
    decreases |s|
  {
    if s != [] {
      var rest := Split(s[1..], sep);
      SplitThenJoin(s[1..], sep);
      if s[0] == sep {
        assert ([[]] + rest)[1..] == rest;
      } else if |rest| > 1 {
        var fields := Split(s, sep);
        assert fields[1..] == rest[1..];
        calc {
          Join(fields, sep);
          ([s[0]] + rest[0]) + [sep] + Join(rest[1..], sep);
          [s[0]] + (rest[0] + [sep] + Join(rest[1..], sep));
          [s[0]] + s[1..];
        }
      }
    }
  }

  /** A string without the separator is a single field. */
  lemma {:induction false} SplitWithoutSeparator(a: string, sep: char)
    requires sep !in a
    ensures Split(a, sep) == [a]
    decreases |a|
  {
    if a != [] {
      SplitWithoutSeparator(a[1..], sep);
      assert [a[0]] + a[1..] == a;
    }
  }

  /** A separator-free field followed by the separator splits off as the first field. */
  lemma {:induction false} SplitAtSeparator(a: string, sep: char, b: string)
    requires sep !in a
    ensures Split(a + [sep] + b, sep) == [a] + Split(b, sep)
    decreases |a|
  {
    var s := a + [sep] + b;
    if a == [] {
      assert s[1..] == b;
    } else {
      assert s[1..] == a[1..] + [sep] + b;
      SplitAtSeparator(a[1..], sep, b);
      assert [a[0]] + a[1..] == a;
    }
  }

  lemma {:induction false} JoinThenSplit(fields: seq<string>, sep: char)
    requires |fields| >= 1
    requires forall i :: 0 <= i < |fields| ==> sep !in fields[i]
    ensures Split(Join(fields, sep), sep) == fields
    decreases |fields|
  {
    if |fields| == 1 {
      SplitWithoutSeparator(fields[0], sep);
    } else {
      JoinThenSplit(fields[1..], sep);
      SplitAtSeparator(fields[0], sep, Join(fields[1..], sep));
      assert [fields[0]] + fields[1..] == fields;
    }
  }

  /** The last field of a string that ends with a separator-free suffix ends with it too. */
  lemma {:induction false} LastFieldKeepsSuffix(s: string, sep: char, suffix: string)
    requires EndsWith(s, suffix) && sep !in suffix
    ensures EndsWith(LastField(s, sep), suffix)
    decreases |s|
  {
    if |s| == |suffix| {
      assert s == suffix;
      SplitWithoutSeparator(s, sep);
    } else {
      assert s[1..][|s[1..]| - |suffix|..] == s[|s| - |suffix|..];
      LastFieldKeepsSuffix(s[1..], sep, suffix);
    }
  }

  // ---------------------------------------------------------------------
  // trim and split(/\s+/)

  function TrimStart(s: string): (r: string)
    ensures |r| <= |s| && r == s[|s| - |r|..]
    ensures r == [] || !IsWhitespace(r[0])
    ensures AllWhitespace(s[..|s| - |r|])
    decreases |s|
  {
    if s != [] && IsWhitespace(s[0]) then
      var r := TrimStart(s[1..]);
      assert s[..|s| - |r|] == [s[0]] + s[1..][..|s| - 1 - |r|];
      r
    else s
  }

  function TrimEnd(s: string): (r: string)
    ensures |r| <= |s| && r == s[..|r|]
    ensures r == [] || !IsWhitespace(r[|r| - 1])
    ensures AllWhitespace(s[|r|..])
    decreases |s|
  {
    if s != [] && IsWhitespace(s[|s| - 1]) then
      var r := TrimEnd(s[..|s| - 1]);
      assert s[|r|..] == s[..|s| - 1][|r|..] + [s[|s| - 1]];
      r
    else s
  }

  /** `s.trim()` */
  function Trim(s: string): string {
    TrimStart(TrimEnd(s))
  }

  /** Length of the longest whitespace-free prefix. */
  function WordLength(s: string): (n: nat)
    ensures n <= |s|
    ensures NoWhitespace(s[..n])
    ensures n < |s| ==> IsWhitespace(s[n])
    decreases |s|
  {
    if s == [] || IsWhitespace(s[0]) then 0 else 1 + WordLength(s[1..])
  }

  /** `s.split(/\s+/)`: each maximal run of whitespace separates two fields. */
  function SplitWhitespace(s: string): (tokens: seq<string>)
    ensures |tokens| >= 1
    ensures forall i :: 0 <= i < |tokens| ==> NoWhitespace(tokens[i])
    decreases |s|
  {
    var n := WordLength(s);
    if n == |s| then [s]
    else [s[..n]] + SplitWhitespace(TrimStart(s[n..]))
  }

  lemma TrimSurrounded(w0: string, core: string, w1: string)
    requires AllWhitespace(w0) && AllWhitespace(w1)
    requires core != [] && !IsWhitespace(core[0]) && !IsWhitespace(core[|core| - 1])
    ensures Trim(w0 + core + w1) == core
  {
    TrimEndOfWhitespaceSuffix(w0 + core, w1);
    TrimStartOfWhitespacePrefix(w0, core);
  }

  lemma {:induction false} TrimEndOfWhitespaceSuffix(x: string, w: string)
    requires AllWhitespace(w)
    requires x == [] || !IsWhitespace(x[|x| - 1])
    ensures TrimEnd(x + w) == x
    decreases |w|
  {
    if w != [] {
      assert (x + w)[..|x + w| - 1] == x + w[..|w| - 1];
      TrimEndOfWhitespaceSuffix(x, w[..|w| - 1]);
    } else {
      assert x + w == x;
    }
  }

  lemma {:induction false} TrimStartOfWhitespacePrefix(w: string, rest: string)
    requires AllWhitespace(w)
    requires rest == [] || !IsWhitespace(rest[0])
    ensures TrimStart(w + rest) == rest
    decreases |w|
  {
    if w != [] {
      assert (w + rest)[1..] == w[1..] + rest;
      TrimStartOfWhitespacePrefix(w[1..], rest);
    }
  }

  lemma {:induction false} WordLengthOfWord(a: string, rest: string)
    requires NoWhitespace(a)
    requires rest == [] || IsWhitespace(rest[0])
    ensures WordLength(a + rest) == |a|
    decreases |a|
  {
    if a != [] {
      assert (a + rest)[1..] == a[1..] + rest;
      WordLengthOfWord(a[1..], rest);
    }
  }

  lemma SplitWhitespaceOfWord(a: string)
    requires NoWhitespace(a)
    ensures SplitWhitespace(a) == [a]
  {
    WordLengthOfWord(a, []);
    assert a + [] == a;
  }

  /** A word, a non-empty run of whitespace and a rest that does not start with
      whitespace split into the word and the fields of the rest. */
  lemma SplitWhitespaceAtRun(a: string, w: string, rest: string)
    requires NoWhitespace(a)
    requires AllWhitespace(w) && w != []
    requires rest == [] || !IsWhitespace(rest[0])
    ensures SplitWhitespace(a + w + rest) == [a] + SplitWhitespace(rest)
  {
    var s := a + w + rest;
    WordLengthOfWord(a, w + rest);
    assert s == a + (w + rest);
    assert s[..|a|] == a && s[|a|..] == w + rest;
    TrimStartOfWhitespacePrefix(w, rest);
  }

  /** `split(/\s+/)` yields at least two fields exactly when there is whitespace. */
  lemma SplitWhitespaceCount(s: string)
    ensures |SplitWhitespace(s)| >= 2 <==> !NoWhitespace(s)
  {
    var n := WordLength(s);
    if n == |s| {
      assert s[..n] == s;
    }
  }

  // ---------------------------------------------------------------------
  // Number(token)

  /** The value of `Number(token)`: an integer, or NaN. */
  datatype JsNumber = Num(value: int) | NaN

  predicate IsDigit(c: char) {
    '0' <= c <= '9'
  }

  predicate IsDigits(s: string) {
    forall i :: 0 <= i < |s| ==> IsDigit(s[i])
  }

  function DigitValue(c: char): nat
    requires IsDigit(c)
  {
    c as int - '0' as int
  }

  /** The number written by a string of decimal digits. */
  function DecimalValue(s: string): nat
    requires IsDigits(s)
  {
    if s == [] then 0 else 10 * DecimalValue(s[..|s| - 1]) + DigitValue(s[|s| - 1])
  }

  /** `Number(token)` on the tokens the crawler reads: the empty string is 0,
      a decimal numeral is its value, and anything else is NaN. */
  function ToNumber(s: string): JsNumber {
    if s == [] then Num(0)
    else if IsDigits(s) then Num(DecimalValue(s))
    else NaN
  }

  /** `Number(fields[i])`, where a missing field is `undefined` and so NaN. */
  function FieldNumber(fields: seq<string>, i: nat): JsNumber {
    if i < |fields| then ToNumber(fields[i]) else NaN
  }

  /** `x - 1` on a JavaScript number. */
  function Decrement(x: JsNumber): JsNumber {
    match x
    case Num(v) => Num(v - 1)
    case NaN => NaN
  }

  /** Decimal rendering of a natural number, the inverse of `ToNumber` on numerals. */
  function ToDecimal(n: nat): (s: string)
    ensures s != [] && IsDigits(s)
  {
    if n < 10 then [('0' as int + n) as char]
    else ToDecimal(n / 10) + [('0' as int + n % 10) as char]
  }

  lemma {:induction false} DecimalRoundTrip(n: nat)
    ensures ToNumber(ToDecimal(n)) == Num(n)
  {
    var s := ToDecimal(n);
    if n >= 10 {
      DecimalRoundTrip(n / 10);
      assert s[..|s| - 1] == ToDecimal(n / 10);
      assert DecimalValue(ToDecimal(n / 10)) == n / 10;
      assert DigitValue(s[|s| - 1]) == n % 10;
    } else {
      assert |s| == 1 && s[..|s| - 1] == [];
      assert DigitValue(s[0]) == n;
      assert DecimalValue(s) == n;
    }
  }
}
