/** ASCII models of the Python string operations the backend relies on:
    `strip`, `lower`, whitespace `split`, `" ".join`, `split(sep, maxsplit)`,
    `replace` of one character, `startswith`, and `str()` of an integer. */
module Text {

  /** Python's `str.isspace` restricted to ASCII: \t \n \v \f \r, the four
      separators \x1c..\x1f, and the space. */
  predicate IsSpace(c: char) {
    c == ' ' || (9 <= c as int <= 13) || (28 <= c as int <= 31)
  }

  predicate NoSpace(s: string) {
    forall i :: 0 <= i < |s| ==> !IsSpace(s[i])
  }

  /** `s.lstrip()` */
  function TrimStart(s: string): (r: string)
    ensures |r| <= |s| && r == s[|s| - |r|..]
    ensures r == [] || !IsSpace(r[0])
    ensures forall i :: 0 <= i < |s| - |r| ==> IsSpace(s[i])
  {
    if s != [] && IsSpace(s[0]) then TrimStart(s[1..]) else s
  }

  /** `s.rstrip()` */
  function TrimEnd(s: string): (r: string)
    ensures |r| <= |s| && r == s[..|r|]
    ensures r == [] || !IsSpace(r[|r| - 1])
    ensures forall i :: |r| <= i < |s| ==> IsSpace(s[i])
  {
    if s != [] && IsSpace(s[|s| - 1]) then TrimEnd(s[..|s| - 1]) else s
  }

  /** `s.strip()` */
  function Strip(s: string): (r: string)
    ensures r == [] || (!IsSpace(r[0]) && !IsSpace(r[|r| - 1]))
    ensures |r| <= |s|
  {
    TrimEnd(TrimStart(s))
  }

  predicate Blank(s: string) {
    Strip(s) == []
  }

  lemma TrimStartNoop(s: string)
    requires s == [] || !IsSpace(s[0])
    ensures TrimStart(s) == s
  {
  }

  lemma TrimEndNoop(s: string)
    requires s == [] || !IsSpace(s[|s| - 1])
    ensures TrimEnd(s) == s
  {
  }

  /** A string starting with a non-whitespace character is not blank. */
  lemma NotBlankAtStart(s: string)
    requires s != [] && !IsSpace(s[0])
    ensures !Blank(s)
  {
    TrimStartNoop(s);
  }

  /** Stripping an already stripped string changes nothing. */
  lemma StripIdempotent(s: string)
    ensures Strip(Strip(s)) == Strip(s)
  {
    var r := Strip(s);
    TrimStartNoop(r);
    TrimEndNoop(r);
  }

  /** A string with no leading or trailing whitespace is its own strip. */
  lemma StripNoop(s: string)
    requires s == [] || (!IsSpace(s[0]) && !IsSpace(s[|s| - 1]))
    ensures Strip(s) == s
  {
    TrimStartNoop(s);
    TrimEndNoop(s);
  }

  /** A string is blank exactly when every character is whitespace. */
  lemma BlankIffAllSpace(s: string)
    ensures Blank(s) <==> forall i :: 0 <= i < |s| ==> IsSpace(s[i])
  {
    var t := TrimStart(s);
    var d := |s| - |t|;
    assert forall i :: d <= i < |s| ==> s[i] == t[i - d];
    if t != [] {
      assert s[d] == t[0];
    }
  }

  function LowerChar(c: char): (r: char)
    ensures IsSpace(r) <==> IsSpace(c)
  {
    if 'A' <= c <= 'Z' then (c as int + 32) as char else c
  }

  /** `s.lower()` on ASCII: every character lower-cased in place. */
  function Lower(s: string): (r: string)
    ensures |r| == |s|
  {
    seq(|s|, i requires 0 <= i < |s| => LowerChar(s[i]))
  }

  lemma LowerAppend(a: string, b: string)
    ensures Lower(a + b) == Lower(a) + Lower(b)
  {
    assert forall i :: 0 <= i < |a + b| ==> (a + b)[i] == if i < |a| then a[i] else b[i - |a|];
  }

  lemma LowerIdempotent(s: string)
    ensures Lower(Lower(s)) == Lower(s)
  {
  }

  /** Lower-casing commutes with stripping, because it never turns a
      whitespace character into a non-whitespace one or back. */
  lemma {:induction false} LowerTrimStart(s: string)
    ensures TrimStart(Lower(s)) == Lower(TrimStart(s))
    decreases |s|
  {
    if s != [] && IsSpace(s[0]) {
      assert Lower(s)[1..] == Lower(s[1..]);
      LowerTrimStart(s[1..]);
    }
  }

  lemma {:induction false} LowerTrimEnd(s: string)
    ensures TrimEnd(Lower(s)) == Lower(TrimEnd(s))
    decreases |s|
  {
    if s != [] && IsSpace(s[|s| - 1]) {
      assert Lower(s)[..|s| - 1] == Lower(s[..|s| - 1]);
      LowerTrimEnd(s[..|s| - 1]);
    }
  }

  lemma LowerStrip(s: string)
    ensures Strip(Lower(s)) == Lower(Strip(s))
  {
    LowerTrimStart(s);
    LowerTrimEnd(TrimStart(s));
  }

  predicate NoUpper(s: string) {
    forall i :: 0 <= i < |s| ==> !('A' <= s[i] <= 'Z')
  }

  /** A lower-cased string has no capitals. */
  lemma LowerNoUpper(s: string)
    ensures NoUpper(Lower(s))
  {
    assert forall i :: 0 <= i < |s| ==> Lower(s)[i] == LowerChar(s[i]);
  }

  /** `s.strip().lower()` is trimmed, has no capitals and keeps the
      stripped length. */
  lemma LowerStripClean(s: string)
    ensures Strip(Lower(Strip(s))) == Lower(Strip(s))
    ensures NoUpper(Lower(Strip(s))) && |Lower(Strip(s))| == |Strip(s)|
  {
    var t := Strip(s);
    LowerStrip(t);
    StripIdempotent(s);
    LowerNoUpper(t);
  }

  /** Lower-casing leaves a string without capitals unchanged. */
  lemma LowerNoop(s: string)
    requires NoUpper(s)
    ensures Lower(s) == s
  {
  }

  /** Number of leading non-whitespace characters. */
  function WordLength(s: string): (n: nat)
    ensures n <= |s|
    ensures forall i :: 0 <= i < n ==> !IsSpace(s[i])
    ensures n == |s| || IsSpace(s[n])
  {
    if s == [] || IsSpace(s[0]) then 0 else 1 + WordLength(s[1..])
  }

  /** A word of `s.split()`: a non-empty run of non-whitespace. */
  predicate IsWord(w: string) {
    w != [] && NoSpace(w)
  }

  /** `s.split()` with no separator: the maximal runs of non-whitespace. */
  function Words(s: string): (r: seq<string>)
    ensures forall k :: 0 <= k < |r| ==> IsWord(r[k])
    decreases |s|
  {
    if s == [] then []
    else if IsSpace(s[0]) then Words(s[1..])
    else
      var n := WordLength(s);
      [s[..n]] + Words(s[n..])
  }

  lemma {:induction false} WordLengthPrefix(w: string, rest: string)
    requires NoSpace(w)
    requires rest == [] || IsSpace(rest[0])
    ensures WordLength(w + rest) == |w|
    decreases |w|
  {
    if w != [] {
      assert (w + rest)[1..] == w[1..] + rest;
      WordLengthPrefix(w[1..], rest);
    }
  }

  /** A word followed by whitespace (or nothing) splits off as the first word. */
  lemma WordsCons(w: string, rest: string)
    requires w != [] && NoSpace(w)
    requires rest == [] || IsSpace(rest[0])
    ensures Words(w + rest) == [w] + Words(rest)
  {
    TrimStartNoop(w + rest);
    WordLengthPrefix(w, rest);
    assert (w + rest)[..|w|] == w;
    assert (w + rest)[|w|..] == rest;
  }

  /** Leading whitespace never starts a word. */
  lemma WordsSkipSpace(c: char, s: string)
    requires IsSpace(c)
    ensures Words([c] + s) == Words(s)
  {
    assert ([c] + s)[1..] == s;
  }

  /** `" ".join(a.split())` of one word, or of two words separated by one space. */
  lemma WordsOfOne(w: string)
    requires w != [] && NoSpace(w)
    ensures Words(w) == [w]
  {
    WordsCons(w, []);
    assert w + [] == w;
  }

  lemma WordsOfTwo(a: string, b: string)
    requires a != [] && NoSpace(a) && b != [] && NoSpace(b)
    ensures Words(a + " " + b) == [a, b]
  {
    assert a + " " + b == a + (" " + b);
    WordsCons(a, " " + b);
    WordsSkipSpace(' ', b);
    WordsOfOne(b);
  }

  predicate AllSpace(s: string) {
    forall i :: 0 <= i < |s| ==> IsSpace(s[i])
  }

  /** Whitespace in front of a string never starts a word. */
  lemma {:induction false} WordsSkipSpaces(sp: string, s: string)
    requires AllSpace(sp)
    ensures Words(sp + s) == Words(s)
  {
    if sp == [] {
      assert sp + s == s;
    } else {
      assert sp + s == [sp[0]] + (sp[1..] + s);
      WordsSkipSpace(sp[0], sp[1..] + s);
      WordsSkipSpaces(sp[1..], s);
    }
  }

  /** A word stops at whitespace, so one followed by trailing whitespace keeps
      its length. */
  lemma {:induction false} WordLengthAppendSpaces(u: string, sp: string)
    requires AllSpace(sp)
    ensures WordLength(u + sp) == WordLength(u)
  {
    if u == [] {
      assert u + sp == sp;
    } else if !IsSpace(u[0]) {
      assert (u + sp)[1..] == u[1..] + sp;
      WordLengthAppendSpaces(u[1..], sp);
    }
  }

  /** Whitespace after a string never ends in a word. */
  lemma {:induction false} WordsAppendSpaces(u: string, sp: string)
    requires AllSpace(sp)
    ensures Words(u + sp) == Words(u)
    decreases |u|
  {
    if u == [] {
      assert u + sp == sp + [];
      WordsSkipSpaces(sp, []);
    } else if IsSpace(u[0]) {
      assert (u + sp)[1..] == u[1..] + sp;
      WordsAppendSpaces(u[1..], sp);
    } else {
      var n := WordLength(u);
      WordLengthAppendSpaces(u, sp);
      assert (u + sp)[..n] == u[..n];
      assert (u + sp)[n..] == u[n..] + sp;
      WordsAppendSpaces(u[n..], sp);
    }
  }

  lemma WordsTrimStart(s: string)
    ensures Words(TrimStart(s)) == Words(s)
  {
    var t := TrimStart(s);
    var lead := s[..|s| - |t|];
    assert AllSpace(lead) by {
      forall i | 0 <= i < |lead| ensures IsSpace(lead[i]) {
        assert lead[i] == s[i];
      }
    }
    assert s == lead + t;
    WordsSkipSpaces(lead, t);
  }

  lemma WordsTrimEnd(t: string)
    ensures Words(TrimEnd(t)) == Words(t)
  {
    var u := TrimEnd(t);
    var trail := t[|u|..];
    assert AllSpace(trail) by {
      forall i | 0 <= i < |trail| ensures IsSpace(trail[i]) {
        assert trail[i] == t[|u| + i];
      }
    }
    assert t == u + trail;
    WordsAppendSpaces(u, trail);
  }

  /** `s.strip().split() == s.split()` */
  lemma WordsStrip(s: string)
    ensures Words(Strip(s)) == Words(s)
  {
    WordsTrimStart(s);
    WordsTrimEnd(TrimStart(s));
  }

  /** A word followed by whitespace, and hence by a run of words. */
  lemma WordThenSpaces(a: string, mid: string, rest: string)
    requires IsWord(a) && AllSpace(mid) && mid != []
    ensures Words(a + (mid + rest)) == [a] + Words(rest)
  {
    WordsCons(a, mid + rest);
    WordsSkipSpaces(mid, rest);
  }

  /** Two words with whitespace before, between and after them. */
  lemma WordsOfSpaced(s: string, pre: string, a: string, mid: string, b: string, post: string)
    requires IsWord(a) && IsWord(b)
    requires AllSpace(pre) && AllSpace(mid) && mid != [] && AllSpace(post)
    requires s == pre + a + mid + b + post
    ensures Words(s) == [a, b]
  {
    var tail := b + post;
    assert s == pre + (a + (mid + tail));
    WordsSkipSpaces(pre, a + (mid + tail));
    WordThenSpaces(a, mid, tail);
    WordsCons(b, post);
    assert post == post + [];
    WordsSkipSpaces(post, []);
    assert Words(tail) == [b];
  }

  /** `sep.join(parts)` */
  function Join(sep: string, parts: seq<string>): string {
    if |parts| == 0 then ""
    else if |parts| == 1 then parts[0]
    else parts[0] + sep + Join(sep, parts[1..])
  }

  /** `s.replace(from, to)` for single characters. */
  function ReplaceChar(s: string, from: char, to: char): (r: string)
    ensures |r| == |s|
    ensures forall i :: 0 <= i < |s| ==> r[i] == (if s[i] == from then to else s[i])
  {
    if s == [] then [] else [if s[0] == from then to else s[0]] + ReplaceChar(s[1..], from, to)
  }

  predicate StartsWith(s: string, prefix: string) {
    |prefix| <= |s| && s[..|prefix|] == prefix
  }

  predicate Contains(s: string, c: char) {
    exists i :: 0 <= i < |s| && s[i] == c
  }

  /** Position of the first `c` in `s`, or |s| when there is none. */
  function IndexOf(s: string, c: char): (n: nat)
    ensures n <= |s|
    ensures forall i :: 0 <= i < n ==> s[i] != c
    ensures n < |s| ==> s[n] == c
  {
    if s == [] || s[0] == c then 0 else 1 + IndexOf(s[1..], c)
  }

  /** `s.split(c)[0]`: everything before the first `c`. */
  function BeforeFirst(s: string, c: char): (r: string)
    ensures !Contains(r, c)
    ensures |r| < |s| <==> Contains(s, c)
    ensures |r| < |s| ==> s == r + [c] + s[|r| + 1..]
    ensures |r| == |s| ==> r == s
  {
    s[..IndexOf(s, c)]
  }

  /** `s.split(sep, maxsplit)` for a one-character separator: at most
      `maxsplit` splits, made at the leftmost occurrences. */
  function SplitN(s: string, sep: char, maxsplit: nat): (r: seq<string>)
    ensures 1 <= |r| <= maxsplit + 1
    ensures forall k :: 0 <= k < |r| - 1 ==> !Contains(r[k], sep)
    ensures |r| < maxsplit + 1 ==> !Contains(r[|r| - 1], sep)
    decreases maxsplit
  {
    var n := IndexOf(s, sep);
    if maxsplit == 0 || n == |s| then [s]
    else [s[..n]] + SplitN(s[n + 1..], sep, maxsplit - 1)
  }

  function DigitChar(d: nat): char
    requires d < 10
  {
    "0123456789"[d]
  }

  /** `str(n)` for an integer. */
  function IntToString(n: int): (r: string)
    ensures r != []
    decreases if n < 0 then 1 - n else n
  {
    if n < 0 then "-" + IntToString(-n)
    else if n < 10 then [DigitChar(n)]
    else IntToString(n / 10) + [DigitChar(n % 10)]
  }
}
