/** The line normalizer of cfg.c (`ltrim`, `rtrim`, `pack`): it turns one
    line of the configuration file into the text of a module argument.
    `Packed` is what `pack` computes, stated on sequences; the lemmas state
    what that text is. The in-place rewrite of the C code on a NUL-terminated
    character buffer is `LineBuffer.PackAt`, proved to leave `Packed` of the
    line in the buffer. */
module Normalizer {
  import opened CString

  // ---- the specification, on sequences -----------------------------------

  /** How many white-space characters start `s`: the distance `ltrim`
      advances its pointer. */
  function LeadingSpaces(s: string): (n: nat)
    ensures n <= |s|
    ensures forall k :: 0 <= k < n ==> IsSpace(s[k])
    ensures n < |s| ==> !IsSpace(s[n])
  {
    LeadingFrom(s, 0)
  }

  /** The end of the run of white space that starts at `i`. */
  function LeadingFrom(s: string, i: nat): (n: nat)
    requires i <= |s|
    decreases |s| - i
    ensures i <= n <= |s|
    ensures forall k :: i <= k < n ==> IsSpace(s[k])
    ensures n < |s| ==> !IsSpace(s[n])
  {
    if i < |s| && IsSpace(s[i]) then LeadingFrom(s, i + 1) else i
  }

  /** Where the trailing white space of `s` starts: the length `rtrim`
      leaves after writing NULs over it. */
  function TrailingStart(s: string): (n: nat)
    ensures n <= |s|
    ensures forall k :: n <= k < |s| ==> IsSpace(s[k])
    ensures n > 0 ==> !IsSpace(s[n - 1])
  {
    TrailingTo(s, |s|)
  }

  /** The start of the run of white space that ends at `j`. */
  function TrailingTo(s: string, j: nat): (n: nat)
    requires j <= |s|
    ensures n <= j
    ensures forall k :: n <= k < j ==> IsSpace(s[k])
    ensures n > 0 ==> !IsSpace(s[n - 1])
  {
    if j > 0 && IsSpace(s[j - 1]) then TrailingTo(s, j - 1) else j
  }

  /** `s` without its leading white space. */
  function LTrim(s: string): string {
    s[LeadingSpaces(s)..]
  }

  /** `s` without its trailing white space. */
  function RTrim(s: string): string {
    s[..TrailingStart(s)]
  }

  function Trim(s: string): string {
    RTrim(LTrim(s))
  }

  /** No white space at either end. */
  predicate IsTrimmed(s: string) {
    s == [] || (!IsSpace(s[0]) && !IsSpace(s[|s| - 1]))
  }

  /** The line up to, not including, its first `#`. */
  function StripComment(line: string): string {
    line[..Find(line, '#')]
  }

  /** What `pack` leaves in the buffer: the comment cut off, leading blanks
      skipped, and then either the right-trimmed rest (no `=`) or the
      right-trimmed key, `=`, and the value trimmed on both sides. */
  function Packed(line: string): string {
    var t := LTrim(StripComment(line));
    var e := Find(t, '=');
    if e == |t| then RTrim(t)
    else RTrim(t[..e]) + "=" + LTrim(RTrim(t[e + 1..]))
  }

  // ---- properties of the specification ------------------------------------

  lemma {:induction false} LeadingIs(s: string, k: nat)
    requires k <= |s|
    requires forall i :: 0 <= i < k ==> IsSpace(s[i])
    requires k == |s| || !IsSpace(s[k])
    ensures LeadingSpaces(s) == k
  {
  }

  lemma {:induction false} TrailingIs(s: string, k: nat)
    requires k <= |s|
    requires forall i :: k <= i < |s| ==> IsSpace(s[i])
    requires k == 0 || !IsSpace(s[k - 1])
    ensures TrailingStart(s) == k
  {
  }

  /** Trimming the two ends commutes, so `Trim` is the trim of either order. */
  lemma {:induction false} TrimCommutes(s: string)
    ensures LTrim(RTrim(s)) == Trim(s)
  {
    var i := LeadingSpaces(s);
    var j := TrailingStart(s);
    if i == |s| {
      TrailingIs(s, 0);
      LeadingIs(s[..0], 0);
      TrailingIs(s[i..], 0);
    } else {
      assert i < j;
      LeadingIs(s[..j], i);
      TrailingIs(s[i..], j - i);
      assert s[..j][i..] == s[i..][..j - i];
    }
  }

  lemma {:induction false} TrimIsTrimmed(s: string)
    ensures IsTrimmed(Trim(s)) && |Trim(s)| <= |s|
    ensures forall x :: x in Trim(s) ==> x in s
  {
    var l := LTrim(s);
    var r := RTrim(l);
    if r != [] {
      assert r[0] == l[0];
    }
    forall x | x in r ensures x in s {
      var k :| 0 <= k < |r| && r[k] == x;
      assert l[k] == x;
      assert s[|s| - |l| + k] == x;
    }
  }

  /** Trimming twice is trimming once. */
  lemma {:induction false} TrimOfTrimmed(s: string)
    requires IsTrimmed(s)
    ensures Trim(s) == s && LTrim(s) == s && RTrim(s) == s
  {
  }

  lemma {:induction false} FindIs(s: string, c: char, i: nat)
    requires i <= |s|
    requires i < |s| ==> s[i] == c
    requires forall k :: 0 <= k < i ==> s[k] != c
    ensures Find(s, c) == i
  {
  }

  /** The reading of `pack` the comment above it gives: without `=` the line
      is the trimmed text before the comment; with one, it is the trimmed
      key, `=` and the trimmed value, split at the first `=` before the
      comment. */
  lemma {:induction false} PackedSplit(line: string)
    ensures var c := StripComment(line);
            var e := Find(c, '=');
            Packed(line) == if e == |c| then Trim(c) else Trim(c[..e]) + "=" + Trim(c[e + 1..])
  {
    var c := StripComment(line);
    var e := Find(c, '=');
    var k := LeadingSpaces(c);
    var t := LTrim(c);
    assert e < |c| ==> c[e] == '=';
    assert k <= e;
    assert Find(t, '=') == e - k by {
      assert forall m :: 0 <= m < e - k ==> t[m] == c[k + m];
      FindIs(t, '=', e - k);
    }
    if e < |c| {
      assert RTrim(t[..e - k]) == Trim(c[..e]) by {
        LeadingIs(c[..e], k);
        assert t[..e - k] == c[..e][k..];
      }
      assert LTrim(RTrim(t[e - k + 1..])) == Trim(c[e + 1..]) by {
        assert t[e - k + 1..] == c[e + 1..];
        TrimCommutes(c[e + 1..]);
      }
    }
  }

  /** A packed line holds no comment. */
  lemma {:induction false} PackedHasNoComment(line: string)
    ensures '#' !in Packed(line)
  {
    var c := StripComment(line);
    var e := Find(c, '=');
    PackedSplit(line);
    assert '#' !in c;
    if e == |c| {
      TrimIsTrimmed(c);
    } else {
      var key, value := Trim(c[..e]), Trim(c[e + 1..]);
      assert '#' !in key by {
        TrimIsTrimmed(c[..e]);
        assert forall x :: x in c[..e] ==> x in c;
      }
      assert '#' !in value by {
        TrimIsTrimmed(c[e + 1..]);
        assert forall x :: x in c[e + 1..] ==> x in c;
      }
      assert '#' !in key + "=" + value;
    }
  }

  lemma {:induction false} PackedLengthEq(c: string, e: nat)
    requires e < |c|
    ensures |Trim(c[..e]) + "=" + Trim(c[e + 1..])| <= |c|
  {
    TrimIsTrimmed(c[..e]);
    TrimIsTrimmed(c[e + 1..]);
  }

  /** `pack` never lengthens the line, so its rewrite stays inside it;
      a line with a comment strictly shrinks. */
  lemma {:induction false} PackedNotLonger(line: string)
    ensures |Packed(line)| <= |StripComment(line)| <= |line|
    ensures '#' in line ==> |StripComment(line)| < |line|
  {
    var c := StripComment(line);
    var e := Find(c, '=');
    PackedSplit(line);
    if e < |c| {
      PackedLengthEq(c, e);
    } else {
      TrimIsTrimmed(c);
    }
    if '#' in line {
      var f :| 0 <= f < |line| && line[f] == '#';
      assert Find(line, '#') <= f;
    }
  }

  /** A packed line has no white space at either end. */
  lemma {:induction false} PackedIsTrimmed(line: string)
    ensures IsTrimmed(Packed(line))
  {
    var c := StripComment(line);
    var e := Find(c, '=');
    PackedSplit(line);
    if e < |c| {
      TrimIsTrimmed(c[..e]);
      TrimIsTrimmed(c[e + 1..]);
      PairTrimmed(Trim(c[..e]), Trim(c[e + 1..]));
    } else {
      TrimIsTrimmed(c);
    }
  }

  lemma PairTrimmed(key: string, value: string)
    requires IsTrimmed(key) && IsTrimmed(value)
    ensures IsTrimmed(key + "=" + value)
  {
    var p := key + "=" + value;
    assert p[0] == if key == [] then '=' else key[0];
    assert p[|p| - 1] == if value == [] then '=' else value[|value| - 1];
  }

  /** Packing is idempotent: a packed line is its own canonical form. */
  lemma {:induction false} PackedIdempotent(line: string)
    ensures Packed(Packed(line)) == Packed(line)
  {
    var p := Packed(line);
    var c := StripComment(line);
    var e := Find(c, '=');
    PackedSplit(line);
    PackedHasNoComment(line);
    FindIs(p, '#', |p|);
    assert StripComment(p) == p;
    PackedSplit(p);
    if e == |c| {
      PackedWordIdempotent(c);
    } else {
      PackedPairIdempotent(Trim(c[..e]), Trim(c[e + 1..]), c, e);
    }
  }

  lemma {:induction false} PackedWordIdempotent(c: string)
    requires '=' !in c && '#' !in Trim(c)
    ensures var p := Trim(c); StripComment(p) == p ==> Packed(p) == p
  {
    var p := Trim(c);
    TrimIsTrimmed(c);
    FindIs(p, '=', |p|);
    PackedSplit(p);
    TrimOfTrimmed(p);
  }

  lemma {:induction false} PackedPairIdempotent(key: string, value: string, c: string, e: nat)
    requires e < |c| && key == Trim(c[..e]) && value == Trim(c[e + 1..]) && '=' !in c[..e]
    ensures var p := key + "=" + value; StripComment(p) == p ==> Packed(p) == p
  {
    TrimIsTrimmed(c[..e]);
    TrimIsTrimmed(c[e + 1..]);
    PairShape(key, value);
    TrimOfTrimmed(key);
    TrimOfTrimmed(value);
  }

  /** How `pack` sees a line that is already `key=value`. */
  lemma {:induction false} PairShape(key: string, value: string)
    requires IsTrimmed(key) && '=' !in key
    ensures var p := key + "=" + value;
            LeadingSpaces(p) == 0 && Find(p, '=') == |key| &&
            p[..|key|] == key && p[|key| + 1..] == value
  {
    var p := key + "=" + value;
    assert p[0] == if key == [] then '=' else key[0];
    LeadingIs(p, 0);
    assert forall k :: 0 <= k < |key| ==> p[k] == key[k];
    FindIs(p, '=', |key|);
  }

  /** Trimming a string whose non-blank text is `s[i..j]`. */
  lemma {:induction false} TrimIs(s: string, i: nat, j: nat)
    requires i < j <= |s|
    requires forall k :: 0 <= k < i ==> IsSpace(s[k])
    requires forall k :: j <= k < |s| ==> IsSpace(s[k])
    requires !IsSpace(s[i]) && !IsSpace(s[j - 1])
    ensures Trim(s) == s[i..j]
  {
    LeadingIs(s, i);
    TrailingIs(s[i..], j - i);
  }

  predicate AllSpace(s: string) {
    forall k :: 0 <= k < |s| ==> IsSpace(s[k])
  }

  /** Padding a trimmed text with blanks on both sides does not change its trim. */
  lemma {:induction false} TrimPadded(a: string, x: string, b: string)
    requires AllSpace(a) && AllSpace(b) && IsTrimmed(x)
    ensures Trim(a + x + b) == x
  {
    var s := a + x + b;
    if x == [] {
      assert AllSpace(s);
      LeadingIs(s, |s|);
      TrailingIs(s[|s|..], 0);
    } else {
      assert s[|a|] == x[0] && s[|a| + |x| - 1] == x[|x| - 1];
      TrimIs(s, |a|, |a| + |x|);
      assert s[|a|..|a| + |x|] == x;
    }
  }

  lemma {:induction false} FindAppend(x: string, ch: char, y: string)
    requires ch !in x
    ensures Find(x + y, ch) == |x| + Find(y, ch)
  {
    var f := Find(y, ch);
    assert forall k :: 0 <= k < |x| ==> (x + y)[k] == x[k];
    assert forall k :: 0 <= k < f ==> (x + y)[|x| + k] == y[k];
    FindIs(x + y, ch, |x| + f);
  }

  lemma {:induction false} NotInSpaces(a: string, ch: char)
    requires AllSpace(a) && !IsSpace(ch)
    ensures ch !in a
  {
  }

  /** The canonical form the normalizer produces: blanks anywhere around
      the key, the `=` and the value, and a trailing comment, leave exactly
      `key=value`. */
  lemma {:induction false} PackedKeyValue(a: string, key: string, b: string, c: string,
                                          value: string, d: string, tail: string)
    requires AllSpace(a) && AllSpace(b) && AllSpace(c) && AllSpace(d)
    requires IsTrimmed(key) && IsTrimmed(value)
    requires '#' !in key && '#' !in value && '=' !in key
    requires tail == [] || tail[0] == '#'
    ensures Packed(a + key + b + "=" + c + value + d + tail) == key + "=" + value
  {
    var left := a + key + b;
    var right := c + value + d;
    var body := left + ("=" + right);
    assert a + key + b + "=" + c + value + d + tail == body + tail;
    PairBody(a, key, b, c, value, d);
    CommentCut(body, tail);
    PackedSplit(body + tail);
    TrimPadded(a, key, b);
    TrimPadded(c, value, d);
  }

  /** A trailing comment is cut off exactly. */
  lemma CommentCut(body: string, tail: string)
    requires '#' !in body && (tail == [] || tail[0] == '#')
    ensures StripComment(body + tail) == body
  {
    FindAppend(body, '#', tail);
    assert Find(tail, '#') == 0;
    assert (body + tail)[..|body|] == body;
  }

  /** The body of a padded `key=value` line: no comment, and its first `=`
      right after the padded key. */
  lemma PairBody(a: string, key: string, b: string, c: string, value: string, d: string)
    requires AllSpace(a) && AllSpace(b) && AllSpace(c) && AllSpace(d)
    requires '#' !in key && '#' !in value && '=' !in key
    ensures var left, right := a + key + b, c + value + d;
            var body := left + ("=" + right);
            '#' !in body && Find(body, '=') == |left| && body[..|left|] == left && body[|left| + 1..] == right
  {
    var left, right := a + key + b, c + value + d;
    var body := left + ("=" + right);
    NotInSpaces(a, '#');
    NotInSpaces(b, '#');
    NotInSpaces(c, '#');
    NotInSpaces(d, '#');
    NotInSpaces(a, '=');
    NotInSpaces(b, '=');
    FindAppend(left, '=', "=" + right);
    assert body[..|left|] == left;
    assert body[|left| + 1..] == right;
  }


  /** Without `=`, the blanks around a word and a trailing comment go. */
  lemma {:induction false} PackedWord(a: string, word: string, d: string, tail: string)
    requires AllSpace(a) && AllSpace(d) && IsTrimmed(word)
    requires '#' !in word && '=' !in word
    requires tail == [] || tail[0] == '#'
    ensures Packed(a + word + d + tail) == word
  {
    var body := a + word + d;
    NotInSpaces(a, '#');
    NotInSpaces(d, '#');
    NotInSpaces(a, '=');
    NotInSpaces(d, '=');
    FindAppend(body, '#', tail);
    assert Find(tail, '#') == 0;
    assert (body + tail)[..|body|] == body;
    FindAppend(body, '=', []);
    assert body + [] == body;
    PackedSplit(body + tail);
    TrimPadded(a, word, d);
  }

  lemma {:induction false} FooBarSplit()
    ensures StripComment("foo = bar") == "foo = bar"
    ensures LeadingSpaces("foo = bar") == 0 && Find("foo = bar", '=') == 4
  {
    FindIs("foo = bar", '#', 9);
    FindIs("foo = bar", '=', 4);
  }

  lemma {:induction false} FooBarTrim()
    ensures RTrim("foo = bar"[..4]) == "foo" && LTrim(RTrim("foo = bar"[5..])) == "bar"
  {
    var l := "foo = bar";
    TrailingIs(l[..4], 3);
    TrailingIs(l[5..], 4);
    LeadingIs(l[5..][..4], 1);
  }

  /** The examples documented above `pack`: 'foo = bar' gives 'foo=bar'. */
  lemma {:induction false} PackedFooBar()
    ensures Packed("foo = bar") == "foo=bar"
  {
    FooBarSplit();
    FooBarTrim();
  }

  /** The examples documented above `pack`: 'baz' stays 'baz'. */
  lemma {:induction false} PackedBaz()
    ensures Packed("baz") == "baz"
  {
  }

  /** The examples documented above `pack`: 'baz # etc' gives 'baz'. */
  lemma {:induction false} PackedBazComment()
    ensures Packed("baz # etc") == "baz"
  {
    assert StripComment("baz # etc") == "baz " by { FindIs("baz # etc", '#', 4); }
    assert LeadingSpaces("baz ") == 0;
    assert Find("baz ", '=') == 4 by { FindIs("baz ", '=', 4); }
    assert RTrim("baz ") == "baz" by { TrailingIs("baz ", 3); }
  }

  /** A line of blanks and then a comment packs to nothing. */
  lemma {:induction false} PackedOnlyComment(a: string, comment: string)
    requires AllSpace(a)
    ensures Packed(a + "#" + comment) == ""
  {
    var tail := "#" + comment;
    assert a + "#" + comment == a + tail;
    NotInSpaces(a, '#');
    FindAppend(a, '#', tail);
    assert Find(tail, '#') == 0;
    assert StripComment(a + tail) == a by {
      assert (a + tail)[..|a|] == a;
    }
    LeadingIs(a, |a|);
  }
}
