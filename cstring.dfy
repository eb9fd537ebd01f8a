/** The C library string primitives that cfg.c relies on, as functions on
    `seq<char>`: `isspace` in the C locale, `strchr`/`strcspn` (Find),
    `strcmp`/`strncmp` against a literal (equality and HasPrefix),
    `strtok_r` with a one-character delimiter set (Tokens), the C-string
    view of a NUL-terminated buffer (CStr) and the `%u`/`%d` conversions
    of `sscanf` (ScanUnsigned, ScanSigned). */
module CString {
  import opened Wrappers

  /** `isspace` in the "C" locale: space, \t, \n, \v, \f, \r. */
  predicate IsSpace(c: char) {
    c == ' ' || c == '\t' || c == '\n' || c == '\U{B}' || c == '\U{C}' || c == '\r'
  }

  /** `strncmp(s, p, strlen(p)) == 0` for a NUL-free `s`. */
  predicate HasPrefix(s: string, p: string) {
    |p| <= |s| && forall k :: 0 <= k < |p| ==> s[k] == p[k]
  }

  /** Index of the first `c` in `s`, or `|s|` when there is none
      (`strcspn(s, "c")`, and `strchr` when the result is below `|s|`). */
  function Find(s: string, c: char): (i: nat)
    ensures i <= |s|
    ensures i < |s| ==> s[i] == c
    ensures forall k :: 0 <= k < i ==> s[k] != c
  {
    FindFrom(s, c, 0)
  }

  /** The first `c` in `s` at or after `i`, or `|s|`. */
  function FindFrom(s: string, c: char, i: nat): (n: nat)
    requires i <= |s|
    decreases |s| - i
    ensures i <= n <= |s|
    ensures n < |s| ==> s[n] == c
    ensures forall k :: i <= k < n ==> s[k] != c
  {
    if i == |s| || s[i] == c then i else FindFrom(s, c, i + 1)
  }

  /** The C string held by a buffer: everything before the first NUL. */
  function CStr(s: string): (r: string)
    ensures '\0' !in r
    ensures r <= s
    ensures |r| < |s| ==> s[|r|] == '\0'
  {
    s[..Find(s, '\0')]
  }

  /** The successive tokens `strtok_r(s, "d", ...)` returns: the maximal
      non-empty runs of characters other than `d`, in order. Runs of
      delimiters, leading and trailing ones included, yield nothing. */
  function Tokens(s: string, d: char): (ts: seq<string>)
    decreases |s|
  {
    if s == [] then []
    else if s[0] == d then Tokens(s[1..], d)
    else
      var j := Find(s, d);
      [s[..j]] + (if j < |s| then Tokens(s[j + 1..], d) else [])
  }

  /** Every token is non-empty and free of the delimiter. */
  lemma {:induction false} TokensWellFormed(s: string, d: char)
    decreases |s|
    ensures forall i :: 0 <= i < |Tokens(s, d)| ==> Tokens(s, d)[i] != [] && d !in Tokens(s, d)[i]
  {
    if s == [] {
    } else if s[0] == d {
      TokensWellFormed(s[1..], d);
    } else {
      var j := Find(s, d);
      if j < |s| {
        TokensWellFormed(s[j + 1..], d);
      }
    }
  }

  /** `s` with every `d` removed. */
  function Remove(s: string, d: char): string {
    if s == [] then [] else (if s[0] == d then [] else [s[0]]) + Remove(s[1..], d)
  }

  function Concat(ts: seq<string>): string {
    if ts == [] then [] else ts[0] + Concat(ts[1..])
  }

  lemma {:induction false} RemoveAppend(a: string, b: string, d: char)
    decreases |a|
    ensures Remove(a + b, d) == Remove(a, d) + Remove(b, d)
  {
    if a == [] {
      assert a + b == b;
    } else {
      assert (a + b)[1..] == a[1..] + b;
      RemoveAppend(a[1..], b, d);
    }
  }

  lemma {:induction false} RemoveAbsent(a: string, d: char)
    requires d !in a
    decreases |a|
    ensures Remove(a, d) == a
  {
    if a != [] {
      RemoveAbsent(a[1..], d);
    }
  }

  /** Tokenizing loses exactly the delimiters: the tokens, concatenated,
      are the input with every delimiter removed. */
  lemma {:induction false} TokensConcat(s: string, d: char)
    decreases |s|
    ensures Concat(Tokens(s, d)) == Remove(s, d)
  {
    if s == [] {
    } else if s[0] == d {
      TokensConcat(s[1..], d);
    } else {
      var j := Find(s, d);
      assert s == s[..j] + s[j..];
      RemoveAppend(s[..j], s[j..], d);
      RemoveAbsent(s[..j], d);
      if j < |s| {
        TokensConcat(s[j + 1..], d);
        assert s[j..] == [d] + s[j + 1..];
        assert Tokens(s, d)[1..] == Tokens(s[j + 1..], d);
      } else {
        assert s[j..] == [];
        assert Tokens(s, d)[1..] == [];
      }
    }
  }

  /** The tokens joined back with one delimiter between each two consecutive ones. */
  function Join(ts: seq<string>, d: char): string {
    if ts == [] then [] else if |ts| == 1 then ts[0] else ts[0] + [d] + Join(ts[1..], d)
  }

  /** Round trip: tokenizing a join of non-empty, delimiter-free tokens
      gives those tokens back. */
  lemma {:induction false} TokensJoin(ts: seq<string>, d: char)
    requires forall i :: 0 <= i < |ts| ==> ts[i] != [] && d !in ts[i]
    decreases |ts|
    ensures Tokens(Join(ts, d), d) == ts
  {
    if ts == [] {
    } else {
      var s := Join(ts, d);
      var t := ts[0];
      assert s[..|t|] == t;
      FindAbsentPrefix(s, t, d);
      if |ts| == 1 {
        assert Find(s, d) == |s|;
      } else {
        assert s == t + ([d] + Join(ts[1..], d));
        assert s[|t|] == d;
        assert s[|t| + 1..] == Join(ts[1..], d);
        TokensJoin(ts[1..], d);
      }
    }
  }

  lemma FindAbsentPrefix(s: string, t: string, d: char)
    requires t != [] && d !in t && t <= s
    requires |t| < |s| ==> s[|t|] == d
    ensures Find(s, d) == |t|
  {
  }

  /** Delimiters at the front yield no token. */
  lemma {:induction false} TokensSkip(s: string, d: char, n: nat)
    requires n <= |s| && forall k :: 0 <= k < n ==> s[k] == d
    decreases n
    ensures Tokens(s, d) == Tokens(s[n..], d)
  {
    if n > 0 {
      TokensSkip(s[1..], d, n - 1);
      assert s[1..][n - 1..] == s[n..];
    }
  }

  /** The first token, when the string does not start with a delimiter. */
  lemma TokensHead(s: string, d: char)
    requires s != [] && s[0] != d
    ensures Tokens(s, d) == [s[..Find(s, d)]] + (if Find(s, d) < |s| then Tokens(s[Find(s, d) + 1..], d) else [])
  {
  }

  /** `strtok_r` on a string that starts with a non-delimiter: the first
      token is its longest delimiter-free prefix, and the tokens after it
      are those of the text past the delimiter that ends it. */
  lemma TokensFirst(s: string, d: char, k: nat)
    requires 0 < k <= |s| && (forall i :: 0 <= i < k ==> s[i] != d) && (k < |s| ==> s[k] == d)
    ensures Tokens(s, d) != [] && Tokens(s, d)[0] == s[..k]
    ensures k < |s| ==> Tokens(s, d)[1..] == Tokens(s[k + 1..], d)
    ensures k == |s| ==> |Tokens(s, d)| == 1
  {
    assert Find(s, d) == k;
    TokensHead(s, d);
  }

  /** A string that does not end with the delimiter has a token. */
  lemma {:induction false} TokensNonEmpty(s: string, d: char)
    requires s != [] && s[|s| - 1] != d
    decreases |s|
    ensures Tokens(s, d) != []
  {
    if s[0] == d {
      TokensNonEmpty(s[1..], d);
    }
  }

  /** A delimiter-free, non-empty string is exactly one token. */
  lemma TokensSingle(s: string, d: char)
    requires s != [] && d !in s
    ensures Tokens(s, d) == [s]
  {
    TokensJoin([s], d);
  }

  // ---- sscanf conversions -------------------------------------------------

  predicate IsDigit(c: char) {
    '0' <= c <= '9'
  }

  /** The input after the leading white space that `sscanf` skips. */
  function SkipSpace(s: string): (r: string)
    ensures r <= s || (|r| <= |s| && r == s[|s| - |r|..])
    ensures r == [] || !IsSpace(r[0])
  {
    if s != [] && IsSpace(s[0]) then SkipSpace(s[1..]) else s
  }

  /** Length of the run of decimal digits that starts `s`. */
  function DigitRun(s: string): (n: nat)
    ensures n <= |s|
    ensures forall k :: 0 <= k < n ==> IsDigit(s[k])
    ensures n < |s| ==> !IsDigit(s[n])
  {
    if s != [] && IsDigit(s[0]) then 1 + DigitRun(s[1..]) else 0
  }

  /** The value of a string of decimal digits, most significant first. */
  function DecimalValue(ds: string): nat
    requires forall k :: 0 <= k < |ds| ==> IsDigit(ds[k])
  {
    if ds == [] then 0
    else
      assert IsDigit(ds[|ds| - 1]);
      10 * DecimalValue(ds[..|ds| - 1]) + (ds[|ds| - 1] as int - '0' as int)
  }

  /** `sscanf(s, "%u", &x)`: blanks, an optional `+`, then at least one
      digit; `None` when the conversion fails and `x` is left untouched. */
  function ScanUnsigned(s: string): Option<nat> {
    var t := SkipSpace(s);
    var u := if t != [] && t[0] == '+' then t[1..] else t;
    var n := DigitRun(u);
    if n == 0 then None else Some(DecimalValue(u[..n]))
  }

  /** `sscanf(s, "%d", &x)`: blanks, an optional sign, then at least one digit. */
  function ScanSigned(s: string): Option<int> {
    var t := SkipSpace(s);
    var neg := t != [] && t[0] == '-';
    var u := if t != [] && (t[0] == '+' || t[0] == '-') then t[1..] else t;
    var n := DigitRun(u);
    if n == 0 then None
    else if neg then Some(-(DecimalValue(u[..n]) as int))
    else Some(DecimalValue(u[..n]))
  }

  /** The decimal numeral of `n`, without leading zeros. */
  function Decimal(n: nat): (s: string)
    ensures |s| > 0 && forall k :: 0 <= k < |s| ==> IsDigit(s[k])
  {
    if n < 10 then [('0' as int + n) as char] else Decimal(n / 10) + [('0' as int + n % 10) as char]
  }

  lemma {:induction false} DecimalValueOfDecimal(n: nat)
    ensures DecimalValue(Decimal(n)) == n
  {
    var s := Decimal(n);
    if n >= 10 {
      assert s[..|s| - 1] == Decimal(n / 10);
      DecimalValueOfDecimal(n / 10);
    }
  }

  /** Round trip: `%u` reads back the numeral of any natural number,
      whatever follows it that is not a digit. */
  lemma ScanUnsignedDecimal(n: nat, rest: string)
    requires rest == [] || !IsDigit(rest[0])
    ensures ScanUnsigned(Decimal(n) + rest) == Some(n)
  {
    var s := Decimal(n) + rest;
    assert s[0] == Decimal(n)[0];
    assert SkipSpace(s) == s;
    DigitRunPrefix(Decimal(n), rest);
    assert s[..|Decimal(n)|] == Decimal(n);
    DecimalValueOfDecimal(n);
  }

  /** Round trip for `%d`: a non-negative numeral reads back as itself. */
  lemma ScanSignedDecimal(n: nat, rest: string)
    requires rest == [] || !IsDigit(rest[0])
    ensures ScanSigned(Decimal(n) + rest) == Some(n as int)
  {
    var u := Decimal(n) + rest;
    assert u[0] == Decimal(n)[0];
    assert SkipSpace(u) == u;
    DigitRunPrefix(Decimal(n), rest);
    assert u[..|Decimal(n)|] == Decimal(n);
    DecimalValueOfDecimal(n);
  }

  /** Round trip for `%d`: a `-` before a numeral negates it. */
  lemma ScanSignedNegative(n: nat, rest: string)
    requires rest == [] || !IsDigit(rest[0])
    ensures ScanSigned("-" + Decimal(n) + rest) == Some(-(n as int))
  {
    var u := Decimal(n) + rest;
    var s := "-" + Decimal(n) + rest;
    assert s == "-" + u;
    assert SkipSpace(s) == s;
    assert s[1..] == u;
    DigitRunPrefix(Decimal(n), rest);
    assert u[..|Decimal(n)|] == Decimal(n);
    DecimalValueOfDecimal(n);
  }

  lemma {:induction false} DigitRunPrefix(ds: string, rest: string)
    requires forall k :: 0 <= k < |ds| ==> IsDigit(ds[k])
    requires rest == [] || !IsDigit(rest[0])
    decreases |ds|
    ensures DigitRun(ds + rest) == |ds|
  {
    if ds == [] {
      assert ds + rest == rest;
    } else {
      assert (ds + rest)[0] == ds[0];
      assert (ds + rest)[1..] == ds[1..] + rest;
      DigitRunPrefix(ds[1..], rest);
    }
  }
}
