/** The in-place half of the normalizer: `ltrim`, `rtrim` and `pack` of
    cfg.c working on a character buffer that holds NUL-terminated strings,
    as the C code does, each proved to leave in the buffer what the
    sequence functions of `Normalizer` describe. */
module LineBuffer {
  import opened CString
  import opened Normalizer

  // ---- C strings inside a buffer --------------------------------------------

  /** The characters from `r` on spell `p`. */
  ghost predicate Spells(b: seq<char>, r: nat, p: string) {
    r + |p| <= |b| && forall k :: 0 <= k < |p| ==> b[r + k] == p[k]
  }

  /** The C string that starts at `r` is `p`: `p` is spelled there, holds
      no NUL, and a NUL follows it. */
  ghost predicate StrAt(b: seq<char>, r: nat, p: string) {
    r + |p| < |b| && b[r + |p|] == '\0' && '\0' !in p && Spells(b, r, p)
  }

  /** `CStr` reads back the C string at `r`. */
  lemma {:induction false} StrAtCStr(b: seq<char>, r: nat, p: string)
    requires StrAt(b, r, p)
    ensures r <= |b| && CStr(b[r..]) == p
  {
    var tail := b[r..];
    forall k | 0 <= k < |p|
      ensures tail[k] == p[k]
    {
      assert tail[k] == b[r + k];
    }
    FindIs(tail, '\0', |p|);
  }

  /** A C string with its first `m` characters skipped is a C string. */
  lemma {:induction false} StrAtSuffix(b: seq<char>, r: nat, p: string, m: nat)
    requires StrAt(b, r, p) && m <= |p|
    ensures StrAt(b, r + m, p[m..])
  {
    assert forall x :: x in p[m..] ==> x in p;
    forall k | 0 <= k < |p| - m
      ensures b[r + m + k] == p[m..][k]
    {
      assert b[r + (m + k)] == p[m + k];
    }
  }

  /** A NUL written at offset `e` splits the C string at `r` in two. */
  lemma {:induction false} StrAtSplit(b: seq<char>, r: nat, p: string, e: nat)
    requires StrAt(b, r, p) && e <= |p|
    ensures StrAt(b[r + e := '\0'], r, p[..e])
    ensures e < |p| ==> StrAt(b[r + e := '\0'], r + e + 1, p[e + 1..])
  {
    var b' := b[r + e := '\0'];
    assert forall x :: x in p[..e] ==> x in p;
    forall k | 0 <= k < e
      ensures b'[r + k] == p[..e][k]
    {
      assert b'[r + k] == b[r + k];
    }
    if e < |p| {
      var q := p[e + 1..];
      assert forall x :: x in q ==> x in p;
      forall k | 0 <= k < |q|
        ensures b'[r + e + 1 + k] == q[k]
      {
        assert b'[r + (e + 1 + k)] == b[r + (e + 1 + k)];
      }
      assert b'[r + e + 1 + |q|] == b[r + |p|];
    }
  }

  /** Writing one character just past `p` extends what is spelled at `r`. */
  lemma {:induction false} SpellsAppend(b: seq<char>, r: nat, p: string, c: char)
    requires Spells(b, r, p) && r + |p| < |b|
    ensures Spells(b[r + |p| := c], r, p + [c])
  {
    var b' := b[r + |p| := c];
    forall k | 0 <= k < |p| + 1
      ensures b'[r + k] == (p + [c])[k]
    {
      if k < |p| {
        assert b'[r + k] == b[r + k];
      }
    }
  }

  /** What is spelled at `r` survives any change to the buffer outside it. */
  lemma {:induction false} KeptSpells(b0: seq<char>, b1: seq<char>, r: nat, p: string)
    requires Spells(b0, r, p) && |b1| == |b0|
    requires forall k :: r <= k < r + |p| ==> b1[k] == b0[k]
    ensures Spells(b1, r, p)
  {
    forall k | 0 <= k < |p|
      ensures b1[r + k] == p[k]
    {
      assert b1[r + k] == b0[r + k];
    }
  }

  /** A C string survives any change to the buffer outside it and its NUL. */
  lemma {:induction false} KeptStrAt(b0: seq<char>, b1: seq<char>, r: nat, p: string)
    requires StrAt(b0, r, p) && |b1| == |b0|
    requires forall k :: r <= k <= r + |p| ==> b1[k] == b0[k]
    ensures StrAt(b1, r, p)
  {
    KeptSpells(b0, b1, r, p);
  }

  /** A C string copied from `w` down to `d`, NUL included, is the C string at `d`. */
  lemma {:induction false} MovedStrAt(b0: seq<char>, b1: seq<char>, d: nat, w: nat, p: string)
    requires StrAt(b0, w, p) && |b1| == |b0| && d <= w
    requires forall k :: d <= k < d + |p| + 1 ==> b1[k] == b0[k - d + w]
    ensures StrAt(b1, d, p)
  {
    assert b1[d + |p|] == b0[w + |p|];
    forall k | 0 <= k < |p|
      ensures b1[d + k] == p[k]
    {
      assert b1[d + k] == b0[w + k];
    }
  }

  /** Characters spelling `p` followed by the C string `q` are the C string `p + q`. */
  lemma {:induction false} StrAtConcat(b: seq<char>, r: nat, p: string, q: string)
    requires Spells(b, r, p) && '\0' !in p && StrAt(b, r + |p|, q)
    ensures StrAt(b, r, p + q)
  {
    assert '\0' !in p + q by {
      assert forall x :: x in p + q ==> x in p || x in q;
    }
    forall k | 0 <= k < |p + q|
      ensures b[r + k] == (p + q)[k]
    {
      if k >= |p| {
        assert b[r + |p| + (k - |p|)] == q[k - |p|];
      }
    }
  }

  /** After NULs are written over the trailing blanks of the C string `p`
      at `i`, the C string there is `RTrim(p)`. */
  lemma {:induction false} RTrimmedStrAt(b0: seq<char>, b1: seq<char>, i: nat, p: string)
    requires StrAt(b0, i, p) && |b1| == |b0|
    requires forall k :: 0 <= k < |b1| ==>
               b1[k] == if i + TrailingStart(p) <= k < i + |p| then '\0' else b0[k]
    ensures StrAt(b1, i, RTrim(p))
  {
    var t := TrailingStart(p);
    assert forall x :: x in RTrim(p) ==> x in p;
    assert b1[i + t] == '\0' by {
      if t == |p| {
        assert b1[i + |p|] == b0[i + |p|];
      }
    }
    forall k | 0 <= k < t
      ensures b1[i + k] == RTrim(p)[k]
    {
      assert b1[i + k] == b0[i + k];
    }
  }

  /** No character of the C string at `r` is a NUL. */
  lemma StrAtNulFree(b: seq<char>, r: nat, p: string)
    requires StrAt(b, r, p)
    ensures forall k :: r <= k < r + |p| ==> b[k] != '\0'
  {
    forall k | r <= k < r + |p|
      ensures b[k] != '\0'
    {
      assert b[r + (k - r)] == p[k - r];
    }
  }

  /** The C string at the start of a buffer that holds a NUL. */
  lemma StrAtStart(b: seq<char>)
    requires '\0' in b
    ensures StrAt(b, 0, CStr(b))
  {
    var n := Find(b, '\0');
    assert n < |b| by {
      var k :| 0 <= k < |b| && b[k] == '\0';
    }
  }

  /** The characters of the C string at `r`, read out of the buffer. */
  lemma StrAtSlice(b: seq<char>, r: nat, p: string)
    requires StrAt(b, r, p)
    ensures r + |p| <= |b| && b[r..r + |p|] == p
  {
  }

  /** The C string at `r` is empty exactly when a NUL is at `r`. */
  lemma StrAtEmpty(b: seq<char>, r: nat, p: string)
    requires StrAt(b, r, p)
    ensures b[r] == '\0' <==> p == []
  {
    if p != [] {
      assert b[r + 0] == p[0];
    }
  }

  /** A buffer that holds `x` and then a NUL holds the C string of `x`. */
  lemma BufferedCStr(b: seq<char>, x: string)
    requires |x| < |b| && b[..|x|] == x && b[|x|] == '\0'
    ensures CStr(b) == CStr(x)
  {
    var j := Find(x, '\0');
    assert forall k :: 0 <= k < j ==> b[k] == x[k];
    FindIs(b, '\0', j);
  }

  // ---- the C library calls and the static helpers of cfg.c ---------------------

  /** `strlen(a + i)`. */
  method StrLen(a: array<char>, i: nat, ghost p: string) returns (n: nat)
    requires StrAt(a[..], i, p)
    ensures n == |p|
  {
    StrAtNulFree(a[..], i, p);
    n := 0;
    while a[i + n] != '\0'
      invariant n <= |p|
      invariant forall k :: i <= k < i + |p| ==> a[k] != '\0'
      decreases |p| - n
    {
      n := n + 1;
    }
  }

  /** `strcspn(a + i, c)` for one character `c`: how far the string runs
      before its first `c`. */
  method Span(a: array<char>, i: nat, c: char, ghost p: string) returns (n: nat)
    requires StrAt(a[..], i, p) && c != '\0'
    ensures n == Find(p, c)
  {
    n := 0;
    while a[i + n] != '\0' && a[i + n] != c
      invariant n <= |p|
      invariant forall k :: 0 <= k < n ==> p[k] != c
      decreases |p| - n
    {
      assert a[i + n] == p[n];
      n := n + 1;
    }
    assert n < |p| ==> a[i + n] == p[n];
    FindIs(p, c, n);
  }

  /** `ltrim(a + i)` returns `a + i + n`: `n` leading blanks are skipped. */
  method LTrimAt(a: array<char>, i: nat, ghost p: string) returns (n: nat)
    requires StrAt(a[..], i, p)
    ensures n == LeadingSpaces(p)
  {
    n := 0;
    while IsSpace(a[i + n])
      invariant n <= |p|
      invariant forall k :: 0 <= k < n ==> IsSpace(p[k])
      decreases |p| - n
    {
      assert a[i + n] == p[n];
      n := n + 1;
    }
    assert n < |p| ==> a[i + n] == p[n];
    LeadingIs(p, n);
  }

  /** `rtrim(a + i)`: NULs are written over the trailing blanks of the C
      string `p` at `i`, which becomes `RTrim(p)`; nothing else changes. */
  method RTrimAt(a: array<char>, i: nat, ghost p: string)
    requires StrAt(a[..], i, p)
    modifies a
    ensures StrAt(a[..], i, RTrim(p))
    ensures forall k :: 0 <= k < a.Length ==>
              a[k] == if i + TrailingStart(p) <= k < i + |p| then '\0' else old(a[k])
  {
    ghost var b0 := a[..];
    var l: nat := StrLen(a, i, p);
    while l > 0 && IsSpace(a[i + l - 1])
      invariant l <= |p|
      invariant forall k :: 0 <= k < a.Length ==> a[k] == if i + l <= k < i + |p| then '\0' else old(a[k])
      invariant forall k :: l <= k < |p| ==> IsSpace(p[k])
    {
      assert a[i + l - 1] == p[l - 1];
      l := l - 1;
      a[i + l] := '\0';
    }
    assert l > 0 ==> a[i + l - 1] == p[l - 1];
    TrailingIs(p, l);
    RTrimmedStrAt(b0, a[..], i, p);
  }

  /** `memmove(a + dst, a + src, count)` with the destination at or before
      the source, copied front to back as the overlap then allows. */
  method MoveDown(a: array<char>, dst: nat, src: nat, count: nat)
    requires dst <= src && src + count <= a.Length
    modifies a
    ensures forall k :: 0 <= k < a.Length ==>
              a[k] == if dst <= k < dst + count then old(a[k - dst + src]) else old(a[k])
  {
    var n := 0;
    while n < count
      invariant n <= count
      invariant forall k :: 0 <= k < a.Length ==>
                  a[k] == if dst <= k < dst + n then old(a[k - dst + src]) else old(a[k])
    {
      a[dst + n] := a[src + n];
      n := n + 1;
    }
  }

  /** `strspn(a + q, "d")`: how many delimiters start the C string at `q`. */
  method SkipDelims(a: array<char>, q: nat, d: char, ghost s: string) returns (n: nat)
    requires StrAt(a[..], q, s) && d != '\0'
    ensures n <= |s| && (forall k :: 0 <= k < n ==> s[k] == d) && (n < |s| ==> s[n] != d)
  {
    StrAtNulFree(a[..], q, s);
    n := 0;
    while a[q + n] == d
      invariant n <= |s|
      invariant forall k :: 0 <= k < n ==> s[k] == d
      decreases |s| - n
    {
      assert a[q + n] == s[n];
      n := n + 1;
    }
    assert n < |s| ==> a[q + n] == s[n];
  }

  /** The tokens of `s`: after `n` leading delimiters, the first one runs
      for `m` characters, and the rest come from what follows its delimiter. */
  lemma TokensAt(s: string, d: char, n: nat, m: nat)
    requires n < |s| && (forall k :: 0 <= k < n ==> s[k] == d) && s[n] != d
    requires m == Find(s[n..], d)
    ensures Tokens(s, d) == [s[n..][..m]] + Tokens(if n + m < |s| then s[n + m + 1..] else [], d)
  {
    TokensSkip(s, d, n);
    TokensHead(s[n..], d);
    if n + m < |s| {
      assert s[n..][m + 1..] == s[n + m + 1..];
    }
  }

  /** `strtok_r(a + q, "d", &save)` on the C string `s` at `q`: the
      delimiters in front are skipped; if nothing else is left there is no
      token, otherwise the token `t` starts at `tok`, the delimiter after it,
      if any, becomes a NUL, and `save` (`next`) points past it, at the C
      string `rest` that holds the remaining tokens. */
  method NextToken(a: array<char>, q: nat, d: char, ghost s: string)
    returns (found: bool, tok: nat, next: nat, ghost t: string, ghost rest: string)
    requires StrAt(a[..], q, s) && d != '\0'
    modifies a
    ensures found <==> Tokens(s, d) != []
    ensures found ==> Tokens(s, d) == [t] + Tokens(rest, d) && q <= tok && tok + |t| <= next &&
                      next + |rest| == q + |s| && (next == tok + |t| ==> rest == []) &&
                      StrAt(a[..], tok, t) && StrAt(a[..], next, rest)
    ensures forall k :: 0 <= k < a.Length && (!found || k != tok + |t|) ==> a[k] == old(a[k])
  {
    tok, next, t, rest := 0, 0, [], [];
    var n := SkipDelims(a, q, d, s);
    StrAtSuffix(a[..], q, s, n);
    ghost var u := s[n..];
    StrAtEmpty(a[..], q + n, u);
    if a[q + n] == '\0' {
      TokensSkip(s, d, n);
      found := false;
      return;
    }
    found := true;
    tok := q + n;
    var m := Span(a, tok, d, u);
    TokensAt(s, d, n, m);
    SpanEnd(a[..], tok, u, d, m);
    t := u[..m];
    if a[tok + m] == d {
      ghost var b := a[..];
      StrAtSplit(b, tok, u, m);
      a[tok + m] := '\0';
      assert a[..] == b[tok + m := '\0'];
      next := tok + m + 1;
      rest := u[m + 1..];
      assert rest == s[n + m + 1..];
    } else {
      assert u[..m] == u;
      next := tok + m;
      rest := [];
    }
  }

  // ---- pack ---------------------------------------------------------------------

  /** The value string at `v` is right-trimmed in place and then its
      leading blanks are skipped: the trimmed value starts at `w`; nothing
      outside the old string changes. */
  method TrimValue(a: array<char>, v: nat, ghost value: string) returns (w: nat)
    requires StrAt(a[..], v, value)
    modifies a
    ensures v <= w && w + |LTrim(RTrim(value))| <= v + |value|
    ensures StrAt(a[..], w, LTrim(RTrim(value)))
    ensures forall k :: 0 <= k < a.Length && (k < v || v + |value| <= k) ==> a[k] == old(a[k])
  {
    RTrimAt(a, v, value);
    var m := LTrimAt(a, v, RTrim(value));
    w := v + m;
    StrAtSuffix(a[..], v, RTrim(value), m);
  }

  /** The key string at `s` is right-trimmed in place and the `=` is
      written back right after it, so its first `n` characters spell the
      key and `=`; nothing outside the old string and its NUL changes. */
  method TrimKey(a: array<char>, s: nat, ghost key: string) returns (n: nat)
    requires StrAt(a[..], s, key)
    modifies a
    ensures n == |RTrim(key)| + 1 && Spells(a[..], s, RTrim(key) + "=")
    ensures forall k :: 0 <= k < a.Length && (k < s || s + |key| < k) ==> a[k] == old(a[k])
  {
    RTrimAt(a, s, key);
    n := StrLen(a, s, RTrim(key));
    SpellsAppend(a[..], s, RTrim(key), '=');
    a[s + n] := '=';
    n := n + 1;
  }

  /** The cuts of the `=` branch of `pack`: the `=` at offset `e` of the
      string `t` at `s` becomes a NUL, the value after it is trimmed and the
      key before it right-trimmed and followed by `=`. */
  method CutPair(a: array<char>, s: nat, e: nat, ghost t: string) returns (n: nat, w: nat)
    requires StrAt(a[..], s, t) && e < |t|
    modifies a
    ensures n == |RTrim(t[..e])| + 1 && s + n <= w && w + |LTrim(RTrim(t[e + 1..]))| <= s + |t|
    ensures Spells(a[..], s, RTrim(t[..e]) + "=") && StrAt(a[..], w, LTrim(RTrim(t[e + 1..])))
    ensures forall k :: 0 <= k < a.Length && (k < s || s + |t| <= k) ==> a[k] == old(a[k])
  {
    StrAtSplit(a[..], s, t, e);
    a[s + e] := '\0';
    ghost var split := a[..];
    w := TrimValue(a, s + e + 1, t[e + 1..]);
    KeptStrAt(split, a[..], s, t[..e]);
    ghost var trimmed := a[..];
    n := TrimKey(a, s, t[..e]);
    KeptStrAt(trimmed, a[..], w, LTrim(RTrim(t[e + 1..])));
  }

  /** `memmove(a + d, a + w, strlen(a + w) + 1)`: the C string at `w`
      moves down to `d`; nothing outside the two copies changes. */
  method ShiftDown(a: array<char>, d: nat, w: nat, ghost val: string)
    requires d <= w && StrAt(a[..], w, val)
    modifies a
    ensures StrAt(a[..], d, val)
    ensures forall k :: 0 <= k < a.Length && (k < d || w + |val| <= k) ==> a[k] == old(a[k])
  {
    var len := StrLen(a, w, val);
    ghost var mid := a[..];
    MoveDown(a, d, w, len + 1);
    MovedStrAt(mid, a[..], d, w, val);
  }

  /** The `=` branch of `pack`: the right-trimmed key before offset `e`,
      `=` and the trimmed value after it become the C string at `s`. */
  method PackPair(a: array<char>, s: nat, e: nat, ghost t: string)
    requires StrAt(a[..], s, t) && e < |t|
    modifies a
    ensures StrAt(a[..], s, RTrim(t[..e]) + "=" + LTrim(RTrim(t[e + 1..])))
    ensures forall k :: 0 <= k < a.Length && (k < s || s + |t| <= k) ==> a[k] == old(a[k])
  {
    ghost var p := RTrim(t[..e]) + "=";
    ghost var val := LTrim(RTrim(t[e + 1..]));
    var n, w := CutPair(a, s, e, t);
    ghost var cut := a[..];
    ShiftDown(a, s + n, w, val);
    KeptSpells(cut, a[..], s, p);
    assert '\0' !in p by {
      assert forall x :: x in RTrim(t[..e]) ==> x in t;
    }
    StrAtConcat(a[..], s, p, val);
  }

  /** `Packed` in the terms of the C code: `t` is the line with its
      comment cut and its leading blanks skipped, `e` the offset of the
      first `=` in it. */
  lemma {:induction false} PackedIs(line: string, t: string, e: nat)
    requires var c := line[..Find(line, '#')]; t == c[LeadingSpaces(c)..]
    requires e == Find(t, '=')
    ensures e == |t| ==> Packed(line) == RTrim(t) && |RTrim(t)| <= |t|
    ensures e < |t| ==> Packed(line) == RTrim(t[..e]) + "=" + LTrim(RTrim(t[e + 1..])) &&
                        |Packed(line)| <= |t|
  {
  }

  /** The first half of `pack(a + lo)`: the line is cut at its first `#`
      and its leading blanks are skipped; the C string `t` left at `s` is
      the line's text before `#` with its leading blanks dropped. */
  method CutComment(a: array<char>, lo: nat, ghost line: string) returns (s: nat, ghost t: string)
    requires StrAt(a[..], lo, line)
    modifies a
    ensures var c := line[..Find(line, '#')]; t == c[LeadingSpaces(c)..]
    ensures lo <= s && s + |t| <= lo + |line| && StrAt(a[..], s, t)
    ensures forall k :: 0 <= k < a.Length && (k < lo || lo + |line| <= k) ==> a[k] == old(a[k])
  {
    var h := Span(a, lo, '#', line);
    StrAtSplit(a[..], lo, line, h);
    a[lo + h] := '\0';
    ghost var c := line[..h];
    var m := LTrimAt(a, lo, c);
    s := lo + m;
    StrAtSuffix(a[..], lo, c, m);
    t := c[m..];
  }

  /** `Span` stops at `c` exactly when the C string holds a `c`. */
  lemma SpanEnd(b: seq<char>, s: nat, t: string, c: char, e: nat)
    requires StrAt(b, s, t) && c != '\0' && e == Find(t, c)
    ensures s + e < |b| && (b[s + e] == c <==> e < |t|)
  {
    if e < |t| {
      assert b[s + e] == t[e];
    }
  }

  /** `pack(a + lo)`: the line that is the C string at `lo` is rewritten in
      place; `Packed(line)` is the C string at the returned position, inside
      the old line, and the buffer outside the line, its NUL included, is
      untouched. */
  method PackAt(a: array<char>, lo: nat, ghost line: string) returns (r: nat)
    requires StrAt(a[..], lo, line)
    modifies a
    ensures lo <= r && r + |Packed(line)| <= lo + |line| && StrAt(a[..], r, Packed(line))
    ensures forall k :: 0 <= k < a.Length && (k < lo || lo + |line| <= k) ==> a[k] == old(a[k])
  {
    var s, t := CutComment(a, lo, line);
    var e := Span(a, s, '=', t);
    PackedIs(line, t, e);
    SpanEnd(a[..], s, t, '=', e);
    if a[s + e] != '=' {
      RTrimAt(a, s, t);
    } else {
      PackPair(a, s, e, t);
    }
    r := s;
  }
}
