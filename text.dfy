/** The Python string operations the fetcher is built on: `str.replace`,
    `str.split` with an explicit separator, and `str.lower` on ASCII letters. */
module Text {

  /** `pat` occurs in `s` starting at index `i`. */
  ghost predicate MatchAt(s: string, pat: string, i: int)
  {
    0 <= i && i + |pat| <= |s| && s[i..i + |pat|] == pat
  }

  /** Python's `pat in s`. */
  ghost predicate Occurs(s: string, pat: string)
  {
    exists i :: MatchAt(s, pat, i)
  }

  /** Python's `s.replace(pat, rep)`: scans left to right and replaces every
      non-overlapping occurrence of `pat`; an empty `pat` inserts `rep` before
      every character and at the end. */
  function Replace(s: string, pat: string, rep: string): string
    decreases |s|
  {
    if |pat| == 0 then
      if s == [] then rep else rep + [s[0]] + Replace(s[1..], pat, rep)
    else if |s| < |pat| then s
    else if s[..|pat|] == pat then rep + Replace(s[|pat|..], pat, rep)
    else [s[0]] + Replace(s[1..], pat, rep)
  }

  /** With nothing to replace, `replace` returns its input unchanged. */
  lemma {:induction false} ReplaceAbsent(s: string, pat: string, rep: string)
    requires |pat| > 0 && !Occurs(s, pat)
    ensures Replace(s, pat, rep) == s
  {
    if |s| >= |pat| {
      assert !MatchAt(s, pat, 0);
      forall i | MatchAt(s[1..], pat, i) ensures MatchAt(s, pat, i + 1) {
        assert s[i + 1..i + 1 + |pat|] == s[1..][i..i + |pat|];
      }
      ReplaceAbsent(s[1..], pat, rep);
      assert s == [s[0]] + s[1..];
    }
  }

  /** A prefix free of the pattern's first character passes through unchanged. */
  lemma {:induction false} ReplaceSkip(a: string, t: string, pat: string, rep: string)
    requires |pat| > 0 && pat[0] !in a
    ensures Replace(a + t, pat, rep) == a + Replace(t, pat, rep)
  {
    if a == [] {
      assert a + t == t;
    } else {
      var s := a + t;
      var tail := a[1..] + t;
      assert s == [a[0]] + tail;
      if |s| < |pat| {
        assert Replace(t, pat, rep) == t;
      } else {
        assert s[..|pat|][0] != pat[0];
        assert s[1..] == tail;
        assert Replace(s, pat, rep) == [a[0]] + Replace(tail, pat, rep);
        ReplaceSkip(a[1..], t, pat, rep);
        assert [a[0]] + a[1..] == a;
      }
    }
  }

  /** An occurrence at the front is replaced and scanning resumes after it. */
  lemma ReplaceHit(t: string, pat: string, rep: string)
    requires |pat| > 0
    ensures Replace(pat + t, pat, rep) == rep + Replace(t, pat, rep)
  {
    assert (pat + t)[..|pat|] == pat;
    assert (pat + t)[|pat|..] == t;
  }

  /** A string without the pattern's first character has no occurrence of it. */
  lemma MarkerFreeAbsent(s: string, pat: string)
    requires |pat| > 0 && pat[0] !in s
    ensures !Occurs(s, pat)
  {
    forall i | 0 <= i && i + |pat| <= |s| ensures !MatchAt(s, pat, i) {
      assert s[i..i + |pat|][0] == s[i];
    }
  }

  /** A template with exactly one placeholder, surrounded by text free of its
      first character, has that placeholder filled and nothing else changed. */
  lemma FillSingle(a: string, b: string, pat: string, rep: string)
    requires |pat| > 0 && pat[0] !in a && pat[0] !in b
    ensures Replace(a + pat + b, pat, rep) == a + rep + b
  {
    assert a + pat + b == a + (pat + b);
    ReplaceSkip(a, pat + b, pat, rep);
    ReplaceHit(b, pat, rep);
    MarkerFreeAbsent(b, pat);
    ReplaceAbsent(b, pat, rep);
  }

  /** The shape of the repository's placeholders: six characters, `#` at both
      ends and nowhere else (`#VAR1#`, `#VAR2#`). */
  predicate IsPlaceholder(p: string)
  {
    |p| == 6 && p[0] == '#' && p[5] == '#' && '#' !in p[1..5]
  }

  /** Replacing one placeholder leaves a different placeholder untouched when
      what follows it is free of `#`. */
  lemma ReplaceOtherPlaceholder(q: string, t: string, pat: string, rep: string)
    requires IsPlaceholder(q) && IsPlaceholder(pat) && q != pat && '#' !in t
    ensures Replace(q + t, pat, rep) == q + t
  {
    var s := q + t;
    assert s[..6] == q;
    assert s[1..] == q[1..5] + ([q[5]] + t);
    ReplaceSkip(q[1..5], [q[5]] + t, pat, rep);
    var u := [q[5]] + t;
    if |u| >= 6 {
      assert u[..6][5] == t[4];
    }
    assert u[1..] == t;
    MarkerFreeAbsent(t, pat);
    ReplaceAbsent(t, pat, rep);
    assert s == [q[0]] + (q[1..5] + u);
  }

  /** Text after the filled placeholder: a `#`-free prefix followed by a
      different placeholder and `#`-free text is left as it is. */
  lemma OtherPlaceholderAfter(b: string, q: string, c: string, pat: string, rep: string)
    requires IsPlaceholder(pat) && IsPlaceholder(q) && pat != q
    requires '#' !in b && '#' !in c
    ensures Replace(b + (q + c), pat, rep) == b + (q + c)
  {
    ReplaceOtherPlaceholder(q, c, pat, rep);
    ReplaceSkip(b, q + c, pat, rep);
  }

  /** A placeholder after a prefix free of its first character is filled,
      and a tail that `replace` leaves alone stays as it is. */
  lemma FillBeforeFixedTail(a: string, pat: string, tail: string, rep: string)
    requires |pat| > 0 && pat[0] !in a
    requires Replace(tail, pat, rep) == tail
    ensures Replace(a + (pat + tail), pat, rep) == a + (rep + tail)
  {
    ReplaceHit(tail, pat, rep);
    ReplaceSkip(a, pat + tail, pat, rep);
  }

  /** In a template with two different placeholders, filling the first leaves
      the second in place. */
  lemma FillFirstOfTwo(a: string, b: string, c: string, pat: string, q: string, rep: string)
    requires IsPlaceholder(pat) && IsPlaceholder(q) && pat != q
    requires '#' !in a && '#' !in b && '#' !in c
    ensures Replace(a + pat + b + q + c, pat, rep) == a + rep + b + q + c
  {
    OtherPlaceholderAfter(b, q, c, pat, rep);
    FillBeforeFixedTail(a, pat, b + (q + c), rep);
    Regroup(a, pat, b, q, c);
    Regroup(a, rep, b, q, c);
  }

  lemma Regroup(a: string, p: string, b: string, q: string, c: string)
    ensures a + p + b + q + c == a + (p + (b + (q + c)))
  {
  }

  /** Python's `s.split(sep)` with an explicit one-character separator. */
  function Split(s: string, sep: char): (parts: seq<string>)
    ensures |parts| >= 1
    ensures forall k :: 0 <= k < |parts| ==> sep !in parts[k]
    decreases |s|
  {
    if s == [] then [[]]
    else
      var rest := Split(s[1..], sep);
      if s[0] == sep then [[]] + rest
      else [[s[0]] + rest[0]] + rest[1..]
  }

  /** Python's `sep.join(parts)` for a one-character separator. */
  function Join(parts: seq<string>, sep: char): string
  {
    if |parts| == 0 then []
    else if |parts| == 1 then parts[0]
    else parts[0] + [sep] + Join(parts[1..], sep)
  }

  /** Splitting loses nothing: joining the pieces gives back the string. */
  lemma {:induction false} JoinSplit(s: string, sep: char)
    ensures Join(Split(s, sep), sep) == s
  {
    if s != [] {
      var rest := Split(s[1..], sep);
      JoinSplit(s[1..], sep);
      if s[0] != sep {
        if |rest| > 1 {
          assert rest == [rest[0]] + rest[1..];
          assert Join(rest, sep) == rest[0] + [sep] + Join(rest[1..], sep);
        }
      }
      assert s == [s[0]] + s[1..];
    }
  }

  /** Splitting a join of separator-free pieces gives back the pieces. */
  lemma {:induction false} SplitJoin(parts: seq<string>, sep: char)
    requires |parts| >= 1
    requires forall k :: 0 <= k < |parts| ==> sep !in parts[k]
    ensures Split(Join(parts, sep), sep) == parts
  {
    if |parts| == 1 {
      SplitPlain(parts[0], sep);
    } else {
      SplitJoin(parts[1..], sep);
      SplitField(parts[0], Join(parts[1..], sep), sep);
      assert parts == [parts[0]] + parts[1..];
    }
  }

  /** A separator-free string is a single piece. */
  lemma {:induction false} SplitPlain(a: string, sep: char)
    requires sep !in a
    ensures Split(a, sep) == [a]
  {
    if a != [] {
      SplitPlain(a[1..], sep);
      assert [a[0]] + a[1..] == a;
    }
  }

  /** The first field of `a + [sep] + rest`, for separator-free `a`, is `a`. */
  lemma {:induction false} SplitField(a: string, rest: string, sep: char)
    requires sep !in a
    ensures Split(a + [sep] + rest, sep) == [a] + Split(rest, sep)
  {
    var s := a + [sep] + rest;
    if a == [] {
      assert s == [sep] + rest;
      assert s[1..] == rest;
    } else {
      SplitField(a[1..], rest, sep);
      assert s[1..] == a[1..] + [sep] + rest;
      assert [a[0]] + a[1..] == a;
    }
  }

  /** How many times `c` occurs in `s`. */
  function Count(s: string, c: char): nat
  {
    multiset(s)[c]
  }

  /** `s.split(sep)` has one more piece than `s` has separators. */
  lemma {:induction false} SplitCount(s: string, sep: char)
    ensures |Split(s, sep)| == Count(s, sep) + 1
  {
    if s != [] {
      SplitCount(s[1..], sep);
      assert s == [s[0]] + s[1..];
      assert multiset(s) == multiset([s[0]]) + multiset(s[1..]);
    }
  }

  /** Python's `c.lower()` restricted to the ASCII range. */
  function LowerChar(c: char): char
  {
    if 'A' <= c <= 'Z' then (c as int - 'A' as int + 'a' as int) as char else c
  }

  /** Python's `s.lower()` on ASCII letters: upper-case letters become
      lower-case, every other character is kept. */
  function Lower(s: string): (r: string)
    ensures |r| == |s|
    ensures forall i :: 0 <= i < |r| ==> !('A' <= r[i] <= 'Z')
    ensures forall i :: 0 <= i < |r| && !('A' <= s[i] <= 'Z') ==> r[i] == s[i]
    ensures forall i :: 0 <= i < |r| && 'A' <= s[i] <= 'Z' ==> r[i] as int == s[i] as int + ('a' as int - 'A' as int)
  {
    seq(|s|, i requires 0 <= i < |s| => LowerChar(s[i]))
  }

  /** Two characters that are equal, or the upper-case and the lower-case
      form of one ASCII letter. */
  predicate SameLetterIgnoringCase(x: char, y: char)
  {
    x == y ||
    ('A' <= x <= 'Z' && y as int == x as int + ('a' as int - 'A' as int)) ||
    ('A' <= y <= 'Z' && x as int == y as int + ('a' as int - 'A' as int))
  }

  /** Strings that differ only in the case of their ASCII letters have the
      same lower-case form. */
  lemma LowerIgnoresCase(a: string, b: string)
    requires |a| == |b|
    requires forall i :: 0 <= i < |a| ==> SameLetterIgnoringCase(a[i], b[i])
    ensures Lower(a) == Lower(b)
  {
    forall i | 0 <= i < |a| ensures Lower(a)[i] == Lower(b)[i] {
      assert SameLetterIgnoringCase(a[i], b[i]);
    }
  }

  /** Text without upper-case letters is its own lower-case form. */
  lemma LowerOfLower(s: string)
    requires forall i :: 0 <= i < |s| ==> !('A' <= s[i] <= 'Z')
    ensures Lower(s) == s
  {
  }
}
