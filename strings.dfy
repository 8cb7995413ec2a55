/** The Python string operations the engine is built from, on `seq<char>`:
    `sep.join(parts)`, `s.split(c)` and `s.replace(c, rep)` for a one-character
    pattern, `a in b`, and the `%0Nd` zero-padded decimal format. Each is paired
    with the facts the rest of the model needs: split and join are
    inverse, join after split is replace, and prefixing every line keeps the
    line structure. */
module Strings {

  /** `sep.join(parts)`. */
  function Join(sep: string, parts: seq<string>): string
  {
    if |parts| == 0 then ""
    else if |parts| == 1 then parts[0]
    else parts[0] + sep + Join(sep, parts[1..])
  }

  /** `"".join(parts)`: the parts concatenated with no separator. */
  function Concat(parts: seq<string>): string
  {
    if parts == [] then "" else parts[0] + Concat(parts[1..])
  }

  /** The number of occurrences of `c` in `s` (`s.count(c)`). */
  function Count(s: string, c: char): nat
  {
    if s == [] then 0 else (if s[0] == c then 1 else 0) + Count(s[1..], c)
  }

  /** `s.split(c)` for a one-character separator: every occurrence of `c`
      separates two pieces, empty pieces are kept, and `"".split(c)` is `[""]`. */
  function Split(s: string, c: char): (r: seq<string>)
    ensures |r| == Count(s, c) + 1
    ensures forall i :: 0 <= i < |r| ==> c !in r[i]
  {
    if s == [] then [""]
    else
      var rest := Split(s[1..], c);
      if s[0] == c then [""] + rest
      else [[s[0]] + rest[0]] + rest[1..]
  }

  /** `s.replace(c, rep)` for a one-character pattern. */
  function Replace(s: string, c: char, rep: string): string
  {
    if s == [] then "" else (if s[0] == c then rep else [s[0]]) + Replace(s[1..], c, rep)
  }

  /** Python's `a in b` on two strings: `a` occurs in `b` as a contiguous piece. */
  predicate IsSubstring(a: string, b: string)
  {
    a <= b || (b != [] && IsSubstring(a, b[1..]))
  }

  /** Every line of `s` with `p` in front: `p + s.replace("\n", "\n" + p)`. */
  function PrefixLines(p: string, s: string): string
  {
    p + Replace(s, '\n', "\n" + p)
  }

  /** Each line of `lines` with `p` in front. */
  function Prefixed(p: string, lines: seq<string>): (r: seq<string>)
    ensures |r| == |lines|
  {
    seq(|lines|, i requires 0 <= i < |lines| => p + lines[i])
  }

  lemma {:induction false} SplitWithoutSeparator(s: string, c: char)
    requires c !in s
    ensures Split(s, c) == [s]
  {
    if s != [] {
      assert s[0] != c && c !in s[1..];
      SplitWithoutSeparator(s[1..], c);
      assert [s[0]] + s[1..] == s;
    }
  }

  /** Splitting at a separator that is added between two strings splits each
      of them separately. */
  lemma {:induction false} SplitConcat(a: string, b: string, c: char)
    ensures Split(a + [c] + b, c) == Split(a, c) + Split(b, c)
  {
    if a == [] {
      assert a + [c] + b == [c] + b;
      assert ([c] + b)[1..] == b;
    } else {
      assert (a + [c] + b)[1..] == a[1..] + [c] + b;
      SplitConcat(a[1..], b, c);
    }
  }

  lemma JoinPrependToFirst(sep: string, x: string, parts: seq<string>)
    requires |parts| >= 1
    ensures Join(sep, [x + parts[0]] + parts[1..]) == x + Join(sep, parts)
  {
    var ps := [x + parts[0]] + parts[1..];
    if |parts| > 1 {
      assert ps[1..] == parts[1..];
    }
  }

  /** Joining the pieces of a split with `rep` replaces each separator by `rep`. */
  lemma {:induction false} JoinSplitIsReplace(s: string, c: char, rep: string)
    ensures Join(rep, Split(s, c)) == Replace(s, c, rep)
  {
    if s != [] {
      var rest := Split(s[1..], c);
      JoinSplitIsReplace(s[1..], c, rep);
      if s[0] == c {
        assert ([""] + rest)[1..] == rest;
      } else {
        JoinPrependToFirst(rep, [s[0]], rest);
      }
    }
  }

  /** Split undoes a join with the same separator, provided no piece holds it. */
  lemma {:induction false} SplitJoinRoundTrip(parts: seq<string>, c: char)
    requires |parts| >= 1
    requires forall i :: 0 <= i < |parts| ==> c !in parts[i]
    ensures Split(Join([c], parts), c) == parts
  {
    if |parts| == 1 {
      SplitWithoutSeparator(parts[0], c);
    } else {
      SplitJoinRoundTrip(parts[1..], c);
      SplitWithoutSeparator(parts[0], c);
      SplitConcat(parts[0], Join([c], parts[1..]), c);
      assert parts[0] + [c] + Join([c], parts[1..]) == Join([c], parts);
    }
  }

  /** Join undoes a split with the same separator. */
  lemma JoinSplitRoundTrip(s: string, c: char)
    ensures Join([c], Split(s, c)) == s
  {
    JoinSplitIsReplace(s, c, [c]);
    ReplaceBySelf(s, c);
  }

  lemma {:induction false} ReplaceBySelf(s: string, c: char)
    ensures Replace(s, c, [c]) == s
  {
    if s != [] {
      ReplaceBySelf(s[1..], c);
    }
  }

  lemma {:induction false} ReplaceRemoves(s: string, c: char, rep: string)
    requires c !in rep
    ensures c !in Replace(s, c, rep)
  {
    if s != [] {
      ReplaceRemoves(s[1..], c, rep);
    }
  }

  lemma {:induction false} CountConcat(a: string, b: string, c: char)
    ensures Count(a + b, c) == Count(a, c) + Count(b, c)
  {
    if a == [] {
      assert a + b == b;
    } else {
      assert (a + b)[0] == a[0] && (a + b)[1..] == a[1..] + b;
      CountConcat(a[1..], b, c);
    }
  }

  lemma {:induction false} ReplaceLength(s: string, c: char, rep: string)
    ensures |Replace(s, c, rep)| == |s| + (|rep| - 1) * Count(s, c)
  {
    if s != [] {
      ReplaceLength(s[1..], c, rep);
    }
  }

  lemma {:induction false} ReplaceCount(s: string, c: char, rep: string)
    requires c in rep
    ensures Count(Replace(s, c, rep), c) == Count(s, c) * Count(rep, c)
  {
    if s != [] {
      ReplaceCount(s[1..], c, rep);
      CountConcat(if s[0] == c then rep else [s[0]], Replace(s[1..], c, rep), c);
    }
  }

  lemma {:induction false} PrefixLinesSplitFrom(q: string, p: string, s: string)
    requires '\n' !in q && '\n' !in p
    decreases s
    ensures var lines := Split(s, '\n');
            Split(q + Replace(s, '\n', "\n" + p), '\n') == [q + lines[0]] + Prefixed(p, lines[1..])
  {
    if s == [] {
      assert q + Replace(s, '\n', "\n" + p) == q;
      SplitWithoutSeparator(q, '\n');
    } else if s[0] == '\n' {
      PrefixLinesSplitFrom(p, p, s[1..]);
      PrefixLinesSplitNewline(q, p, s);
    } else {
      assert '\n' !in q + [s[0]];
      PrefixLinesSplitFrom(q + [s[0]], p, s[1..]);
      PrefixLinesSplitOther(q, p, s);
    }
  }

  lemma PrefixLinesSplitNewline(q: string, p: string, s: string)
    requires '\n' !in q && '\n' !in p
    requires s != [] && s[0] == '\n'
    requires var rest := Split(s[1..], '\n');
             Split(p + Replace(s[1..], '\n', "\n" + p), '\n') == [p + rest[0]] + Prefixed(p, rest[1..])
    ensures var lines := Split(s, '\n');
            Split(q + Replace(s, '\n', "\n" + p), '\n') == [q + lines[0]] + Prefixed(p, lines[1..])
  {
    var tail := p + Replace(s[1..], '\n', "\n" + p);
    ReplaceNewlineStep(q, p, s);
    SplitConcat(q, tail, '\n');
    SplitWithoutSeparator(q, '\n');
    LinesAfterNewline(q, p, s, Split(tail, '\n'));
  }

  lemma ReplaceNewlineStep(q: string, p: string, s: string)
    requires s != [] && s[0] == '\n'
    ensures q + Replace(s, '\n', "\n" + p) == q + ['\n'] + (p + Replace(s[1..], '\n', "\n" + p))
  {
    assert Replace(s, '\n', "\n" + p) == ("\n" + p) + Replace(s[1..], '\n', "\n" + p);
  }

  lemma LinesAfterNewline(q: string, p: string, s: string, tailLines: seq<string>)
    requires s != [] && s[0] == '\n'
    requires var rest := Split(s[1..], '\n');
             tailLines == [p + rest[0]] + Prefixed(p, rest[1..])
    ensures var lines := Split(s, '\n');
            [q] + tailLines == [q + lines[0]] + Prefixed(p, lines[1..])
  {
    var rest := Split(s[1..], '\n');
    var lines := Split(s, '\n');
    assert lines == [""] + rest;
    assert lines[1..] == rest;
    assert Prefixed(p, rest) == [p + rest[0]] + Prefixed(p, rest[1..]);
    assert q + lines[0] == q;
  }

  lemma PrefixLinesSplitOther(q: string, p: string, s: string)
    requires '\n' !in q && '\n' !in p
    requires s != [] && s[0] != '\n'
    requires var rest := Split(s[1..], '\n');
             Split((q + [s[0]]) + Replace(s[1..], '\n', "\n" + p), '\n') == [(q + [s[0]]) + rest[0]] + Prefixed(p, rest[1..])
    ensures var lines := Split(s, '\n');
            Split(q + Replace(s, '\n', "\n" + p), '\n') == [q + lines[0]] + Prefixed(p, lines[1..])
  {
    ReplaceOtherStep(q, p, s);
    var b := (q + [s[0]]) + Replace(s[1..], '\n', "\n" + p);
    LinesAfterOther(q, p, s, Split(b, '\n'));
  }

  lemma ReplaceOtherStep(q: string, p: string, s: string)
    requires s != [] && s[0] != '\n'
    ensures q + Replace(s, '\n', "\n" + p) == (q + [s[0]]) + Replace(s[1..], '\n', "\n" + p)
  {
    assert Replace(s, '\n', "\n" + p) == [s[0]] + Replace(s[1..], '\n', "\n" + p);
  }

  lemma LinesAfterOther(q: string, p: string, s: string, got: seq<string>)
    requires s != [] && s[0] != '\n'
    requires var rest := Split(s[1..], '\n');
             got == [(q + [s[0]]) + rest[0]] + Prefixed(p, rest[1..])
    ensures var lines := Split(s, '\n');
            got == [q + lines[0]] + Prefixed(p, lines[1..])
  {
    var rest := Split(s[1..], '\n');
    var lines := Split(s, '\n');
    assert lines == [[s[0]] + rest[0]] + rest[1..];
    assert lines[1..] == rest[1..];
    assert q + lines[0] == (q + [s[0]]) + rest[0];
  }

  /** Prefixing every line of `s` with `p` keeps the number of lines and puts
      `p` in front of each of them. */
  lemma PrefixLinesSplit(p: string, s: string)
    requires '\n' !in p
    ensures Split(PrefixLines(p, s), '\n') == Prefixed(p, Split(s, '\n'))
  {
    var lines := Split(s, '\n');
    PrefixLinesSplitFrom(p, p, s);
    assert Prefixed(p, lines) == [p + lines[0]] + Prefixed(p, lines[1..]);
  }

  /** Prefixing every line keeps the number of newlines and adds |p| characters
      per line. */
  lemma PrefixLinesCount(p: string, s: string)
    requires '\n' !in p
    ensures Count(PrefixLines(p, s), '\n') == Count(s, '\n')
    ensures |PrefixLines(p, s)| == |s| + |p| * (Count(s, '\n') + 1)
  {
    var rep := "\n" + p;
    CountNotIn(p, '\n');
    CountConcat("\n", p, '\n');
    ReplaceCount(s, '\n', rep);
    CountConcat(p, Replace(s, '\n', rep), '\n');
    ReplaceLength(s, '\n', rep);
  }

  lemma {:induction false} CountNotIn(s: string, c: char)
    requires c !in s
    ensures Count(s, c) == 0
  {
    if s != [] {
      CountNotIn(s[1..], c);
    }
  }

  // ----- zero-padded decimal numbers ("%0Nd") -----

  function Pow10(k: nat): (r: nat)
    ensures r >= 1
  {
    if k == 0 then 1 else 10 * Pow10(k - 1)
  }

  function DigitChar(d: nat): char
    requires d < 10
  {
    (48 + d) as char
  }

  /** The value of a digit character; anything else reads as 0. */
  function DigitValue(ch: char): nat
  {
    if '0' <= ch <= '9' then ch as nat - 48 else 0
  }

  predicate AllDigits(s: string)
  {
    forall i :: 0 <= i < |s| ==> '0' <= s[i] <= '9'
  }

  /** The decimal value of a string of digits. */
  function ParseDigits(s: string): nat
  {
    if s == [] then 0 else ParseDigits(s[..|s| - 1]) * 10 + DigitValue(s[|s| - 1])
  }

  /** `"%0wd" % n`: the decimal digits of `n`, with leading zeros up to `w`
      characters. It uses more characters when `n` needs them, and it is the
      exact inverse of ParseDigits. */
  function Pad(n: nat, w: nat): (r: string)
    decreases n, w
    ensures AllDigits(r) && ParseDigits(r) == n
    ensures |r| >= 1 && |r| >= w
    ensures w >= 1 && n < Pow10(w) ==> |r| == w
  {
    if n < 10 && w <= 1 then [DigitChar(n)]
    else
      var rest := Pad(n / 10, if w == 0 then 0 else w - 1);
      var r := rest + [DigitChar(n % 10)];
      assert r[..|r| - 1] == rest && DigitValue(r[|r| - 1]) == n % 10;
      assert n == n / 10 * 10 + n % 10;
      assert w >= 2 && n < Pow10(w) ==> n / 10 < Pow10(w - 1);
      r
  }
}
