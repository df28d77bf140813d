/** The parts of Python's string and text-file semantics that the three scripts rely on:
    the `in` operator on strings, `str.split` with an explicit separator, iterating over
    the lines of a text file, ASCII decimal digits and formatting a non-negative `int`. */
module PyText {
  import opened Results

  // ---------------------------------------------------------------------------
  // `sub in s`
  // ---------------------------------------------------------------------------

  /** `sub` occurs in `s` starting at offset `i`. */
  ghost predicate OccursAt(s: string, sub: string, i: int)
  {
    0 <= i && i + |sub| <= |s| && s[i..i + |sub|] == sub
  }

  /** Python's `sub in s` on two strings, as a left-to-right scan. */
  function Contains(s: string, sub: string): (b: bool)
    ensures b <==> exists i :: OccursAt(s, sub, i)
    decreases |s|
  {
    if |sub| > |s| then false
    else if s[..|sub|] == sub then
      assert OccursAt(s, sub, 0);
      true
    else
      OccursInTail(s, sub);
      Contains(s[1..], sub)
  }

  /** A string that holds `u + v` holds `u`. */
  lemma ContainsPrefixOf(s: string, u: string, v: string)
    requires Contains(s, u + v)
    ensures Contains(s, u)
  {
    var i :| OccursAt(s, u + v, i);
    assert s[i..i + |u|] == (u + v)[..|u|];
    assert OccursAt(s, u, i);
  }

  /** Dropping a first character that does not start an occurrence keeps every occurrence. */
  lemma OccursInTail(s: string, sub: string)
    requires |s| > 0 && !OccursAt(s, sub, 0)
    ensures (exists i :: OccursAt(s, sub, i)) <==> (exists i :: OccursAt(s[1..], sub, i))
  {
    if i :| OccursAt(s, sub, i) {
      assert s[1..][i - 1..i - 1 + |sub|] == s[i..i + |sub|];
      assert OccursAt(s[1..], sub, i - 1);
    }
    if i :| OccursAt(s[1..], sub, i) {
      assert s[1..][i..i + |sub|] == s[i + 1..i + 1 + |sub|];
      assert OccursAt(s, sub, i + 1);
    }
  }

  // ---------------------------------------------------------------------------
  // `s.split(sep)` with a one-character separator
  // ---------------------------------------------------------------------------

  /** Python's `s.split(sep)`: the pieces between separators, empty pieces kept. */
  function Split(s: string, sep: char): (parts: seq<string>)
    ensures |parts| >= 1
    ensures forall k :: 0 <= k < |parts| ==> sep !in parts[k]
    ensures sep !in s ==> parts == [s]
    ensures sep in s ==> |parts| > 1
    decreases |s|
  {
    if s == [] then [""]
    else
      var rest := Split(s[1..], sep);
      assert s == [s[0]] + s[1..];
      if s[0] == sep then [""] + rest else [[s[0]] + rest[0]] + rest[1..]
  }

  /** Python's `sep.join(parts)`. */
  function Join(parts: seq<string>, sep: char): string
    requires |parts| >= 1
    decreases |parts|
  {
    if |parts| == 1 then parts[0] else parts[0] + [sep] + Join(parts[1..], sep)
  }

  /** Joining the pieces of a split gives back the string. */
  lemma {:induction false} JoinSplit(s: string, sep: char)
    ensures Join(Split(s, sep), sep) == s
    decreases |s|
  {
    if s != [] {
      var rest := Split(s[1..], sep);
      JoinSplit(s[1..], sep);
      if s[0] == sep {
        assert ([""] + rest)[1..] == rest;
      } else {
        var parts := [[s[0]] + rest[0]] + rest[1..];
        if |rest| > 1 {
          assert parts[1..] == rest[1..];
        }
      }
    }
  }

  /** Splitting a string that starts with a separator-free word. */
  lemma {:induction false} SplitAfterWord(w: string, t: string, sep: char)
    requires sep !in w
    ensures Split(w + t, sep) == [w + Split(t, sep)[0]] + Split(t, sep)[1..]
    decreases |w|
  {
    if w != [] {
      assert (w + t)[1..] == w[1..] + t;
      SplitAfterWord(w[1..], t, sep);
      assert [w[0]] + (w[1..] + Split(t, sep)[0]) == w + Split(t, sep)[0];
    } else {
      var p := Split(t, sep);
      assert w + t == t;
      assert w + p[0] == p[0];
      assert [p[0]] + p[1..] == p;
    }
  }

  /** Splitting the join of separator-free pieces gives back the pieces. */
  lemma {:induction false} SplitJoin(parts: seq<string>, sep: char)
    requires |parts| >= 1
    requires forall k :: 0 <= k < |parts| ==> sep !in parts[k]
    ensures Split(Join(parts, sep), sep) == parts
    decreases |parts|
  {
    if |parts| == 1 {
      SplitAfterWord(parts[0], "", sep);
      assert parts[0] + "" == parts[0];
    } else {
      var tail := Join(parts[1..], sep);
      var u := [sep] + tail;
      SplitJoin(parts[1..], sep);
      assert Join(parts, sep) == parts[0] + u;
      assert u[1..] == tail;
      assert Split(u, sep) == [""] + parts[1..];
      SplitAfterWord(parts[0], u, sep);
      assert parts[0] + "" == parts[0];
      assert [parts[0]] + parts[1..] == parts;
    }
  }

  /** The last piece of a split is a separator-free suffix of the string that is either the
      whole string or preceded by a separator. */
  lemma {:induction false} LastPieceIsSuffix(s: string, sep: char)
    ensures var parts := Split(s, sep);
            var g := parts[|parts| - 1];
            |g| <= |s| && s[|s| - |g|..] == g && (|g| == |s| || s[|s| - |g| - 1] == sep)
    decreases |s|
  {
    if s != [] {
      var rest := Split(s[1..], sep);
      var parts := Split(s, sep);
      var g := rest[|rest| - 1];
      LastPieceIsSuffix(s[1..], sep);
      assert s[1..][|s| - 1 - |g|..] == s[|s| - |g|..];
      if s[0] == sep {
        assert parts == [""] + rest;
        assert parts[|parts| - 1] == g;
      } else if |rest| == 1 {
        assert sep !in s[1..];
        assert parts == [s];
      } else {
        assert sep in s[1..];
        assert parts[|parts| - 1] == g;
        assert |g| < |s| - 1;
      }
    }
  }

  /** The position of the last `c` in `s`, if any. */
  function LastIndexOf(s: string, c: char): (r: Option<nat>)
    ensures r.Some? ==> r.value < |s| && s[r.value] == c
    ensures r.Some? ==> forall k :: r.value < k < |s| ==> s[k] != c
    ensures r.None? ==> forall k :: 0 <= k < |s| ==> s[k] != c
    decreases |s|
  {
    if s == [] then None
    else if s[|s| - 1] == c then Some(|s| - 1)
    else LastIndexOf(s[..|s| - 1], c)
  }

  // ---------------------------------------------------------------------------
  // `for line in file` over a file opened in text mode
  // ---------------------------------------------------------------------------

  /** The length of the first line of non-empty text `t`: up to and including its first
      '\n', or all of `t` when it holds none. */
  function LineLength(t: string): (n: nat)
    requires t != []
    ensures 1 <= n <= |t|
    ensures '\n' !in t[..n - 1]
    ensures n < |t| ==> t[n - 1] == '\n'
    decreases |t|
  {
    if t[0] == '\n' || |t| == 1 then 1
    else
      var m := LineLength(t[1..]);
      assert t[..m] == [t[0]] + t[1..][..m - 1];
      1 + m
  }

  /** The lines Python yields when iterating over a file whose text is `t`; each keeps its
      '\n', only the last may lack one. */
  function SplitLines(t: string): (lines: seq<string>)
    ensures |lines| <= |t|
    ensures lines == [] <==> t == []
    decreases |t|
  {
    if t == [] then [] else var n := LineLength(t); [t[..n]] + SplitLines(t[n..])
  }

  /** The text of a file made of `lines`. */
  function Concat(lines: seq<string>): string
    decreases |lines|
  {
    if lines == [] then "" else lines[0] + Concat(lines[1..])
  }

  /** `lines` is what iterating over some file yields: no empty line, a '\n' only at the end
      of a line, and at the end of every line but the last. */
  ghost predicate WellFormedLines(lines: seq<string>)
  {
    forall k :: 0 <= k < |lines| ==>
      lines[k] != [] && '\n' !in lines[k][..|lines[k]| - 1] &&
      (k < |lines| - 1 ==> lines[k][|lines[k]| - 1] == '\n')
  }

  /** The text ends a line: it is empty or its last character is '\n'. */
  predicate EndsLine(t: string)
  {
    t == [] || t[|t| - 1] == '\n'
  }

  /** Reading the lines back and concatenating them gives the text. */
  lemma {:induction false} ConcatSplitLines(t: string)
    ensures Concat(SplitLines(t)) == t
    decreases |t|
  {
    if t != [] {
      var n := LineLength(t);
      ConcatSplitLines(t[n..]);
      assert t[..n] + t[n..] == t;
    }
  }

  /** Every text splits into well-formed lines. */
  lemma {:induction false} SplitLinesWellFormed(t: string)
    ensures WellFormedLines(SplitLines(t))
    decreases |t|
  {
    if t != [] {
      var n := LineLength(t);
      var rest := SplitLines(t[n..]);
      SplitLinesWellFormed(t[n..]);
      assert t[..n][..n - 1] == t[..n - 1];
      assert rest != [] ==> t[..n][n - 1] == '\n';
      WellFormedCons(t[..n], rest);
    }
  }

  /** A line ending in '\n', or a last line, put before well-formed lines keeps them
      well-formed. */
  lemma WellFormedCons(line: string, rest: seq<string>)
    requires line != [] && '\n' !in line[..|line| - 1]
    requires rest != [] ==> line[|line| - 1] == '\n'
    requires WellFormedLines(rest)
    ensures WellFormedLines([line] + rest)
  {
    var lines := [line] + rest;
    forall k | 1 <= k < |lines|
      ensures lines[k] == rest[k - 1]
    {
    }
  }

  /** A line with its '\n' only at its end is read back whole, whatever follows it. */
  lemma {:induction false} LineLengthOfLine(l: string, rest: string)
    requires l != [] && '\n' !in l[..|l| - 1]
    requires rest != [] ==> l[|l| - 1] == '\n'
    ensures LineLength(l + rest) == |l|
    decreases |l|
  {
    var t := l + rest;
    if |l| > 1 {
      assert l[0] in l[..|l| - 1];
      assert t[1..] == l[1..] + rest;
      LineLengthOfLine(l[1..], rest);
    }
  }

  /** Text holding a '\n' has the same first line whatever is appended to it. */
  lemma {:induction false} LineLengthOfPrefix(a: string, b: string)
    requires '\n' in a
    ensures LineLength(a + b) == LineLength(a)
    decreases |a|
  {
    if a[0] != '\n' {
      assert '\n' in a[1..];
      assert (a + b)[1..] == a[1..] + b;
      LineLengthOfPrefix(a[1..], b);
    }
  }

  /** Reading back the text of well-formed lines gives those lines. */
  lemma {:induction false} SplitLinesConcat(lines: seq<string>)
    requires WellFormedLines(lines)
    ensures SplitLines(Concat(lines)) == lines
    decreases |lines|
  {
    if lines != [] {
      var rest := Concat(lines[1..]);
      assert WellFormedLines(lines[1..]) by {
        forall k | 0 <= k < |lines| - 1
          ensures lines[1..][k] == lines[k + 1]
        {
        }
      }
      SplitLinesConcat(lines[1..]);
      if |lines| == 1 {
        assert rest == "";
      }
      LineLengthOfLine(lines[0], rest);
      assert (lines[0] + rest)[..|lines[0]|] == lines[0];
      assert (lines[0] + rest)[|lines[0]|..] == rest;
    }
  }

  /** Text that ends a line does not merge with the text appended to it. */
  lemma {:induction false} SplitLinesAppend(a: string, b: string)
    requires EndsLine(a)
    ensures SplitLines(a + b) == SplitLines(a) + SplitLines(b)
    decreases |a|
  {
    if a == [] {
      assert a + b == b;
    } else {
      var line, rest := FirstLineOfEndedText(a);
      SplitLinesAppend(rest, b);
      Associative(line, rest, b);
      SplitLinesPrepend(line, rest + b);
      SplitLinesPrepend(line, rest);
      Associative([line], SplitLines(rest), SplitLines(b));
    }
  }

  lemma Associative<T>(x: seq<T>, y: seq<T>, z: seq<T>)
    ensures (x + y) + z == x + (y + z)
  {
  }

  /** Non-empty text that ends a line is a line ending in '\n' followed by text that ends a
      line. */
  lemma FirstLineOfEndedText(a: string) returns (line: string, rest: string)
    requires a != [] && EndsLine(a)
    ensures a == line + rest && |rest| < |a| && EndsLine(rest)
    ensures line != [] && '\n' !in line[..|line| - 1] && line[|line| - 1] == '\n'
  {
    var n := LineLength(a);
    line, rest := a[..n], a[n..];
    assert a[..n][..n - 1] == a[..n - 1];
  }

  /** A line ending in '\n' is read as a line of its own, whatever follows it. */
  lemma SplitLinesPrepend(line: string, t: string)
    requires line != [] && '\n' !in line[..|line| - 1] && line[|line| - 1] == '\n'
    ensures SplitLines(line + t) == [line] + SplitLines(t)
  {
    LineLengthOfLine(line, t);
    assert (line + t)[..|line|] == line;
    assert (line + t)[|line|..] == t;
  }

  /** Appending a newline-free word and a '\n' to any text yields a last line holding the word
      and the '\n' after it. */
  lemma {:induction false} LastLineHoldsWord(a: string, w: string)
    requires '\n' !in w
    ensures var lines := SplitLines(a + w + "\n");
            |lines| > 0 && Contains(lines[|lines| - 1], w + "\n")
    decreases |a|
  {
    var t := a + w + "\n";
    if '\n' in a {
      var n := LineLength(a);
      assert LineLength(t) == n < |t| && t[n..] == a[n..] + w + "\n" by {
        LineLengthOfPrefix(a, w + "\n");
        assert t == a + (w + "\n");
      }
      LastLineHoldsWord(a[n..], w);
      LastLineOfRest(t);
    } else {
      OneLineHoldsWord(a, w);
    }
  }

  /** Text with more than one line ends with the last line of what follows its first line. */
  lemma LastLineOfRest(t: string)
    requires t != [] && LineLength(t) < |t|
    ensures var lines := SplitLines(t);
            var rest := SplitLines(t[LineLength(t)..]);
            |rest| > 0 && lines[|lines| - 1] == rest[|rest| - 1]
  {
  }

  /** A word between newline-free text and a final '\n' makes a single line holding it and
      the '\n' after it. */
  lemma OneLineHoldsWord(a: string, w: string)
    requires '\n' !in a && '\n' !in w
    ensures SplitLines(a + w + "\n") == [a + w + "\n"]
    ensures Contains(a + w + "\n", w + "\n")
  {
    var t := a + w + "\n";
    assert t[..|t| - 1] == a + w;
    LineLengthOfLine(t, "");
    assert t + "" == t;
    assert t[..|t|] == t;
    assert t[|a|..|t|] == w + "\n";
    assert OccursAt(t, w + "\n", |a|);
  }

  // ---------------------------------------------------------------------------
  // Digits and `f'{i}'` for a non-negative int
  // ---------------------------------------------------------------------------

  /** An ASCII decimal digit. */
  predicate IsDigit(c: char)
  {
    '0' <= c <= '9'
  }

  function DigitValue(c: char): nat
    requires IsDigit(c)
  {
    (c as int) - ('0' as int)
  }

  function DigitChar(d: nat): (c: char)
    requires d < 10
    ensures IsDigit(c) && DigitValue(c) == d
  {
    (('0' as int) + d) as char
  }

  predicate AllDigits(s: string)
  {
    forall k :: 0 <= k < |s| ==> IsDigit(s[k])
  }

  /** Python's `str(n)` for `n >= 0`: decimal digits, no leading zero. */
  function NatToString(n: nat): (s: string)
    ensures |s| >= 1 && AllDigits(s)
    ensures |s| == 1 || s[0] != '0'
    decreases n
  {
    if n < 10 then [DigitChar(n)] else NatToString(n / 10) + [DigitChar(n % 10)]
  }

  /** The value of a string of decimal digits. */
  function ParseDecimal(s: string): nat
    requires AllDigits(s)
    decreases |s|
  {
    if s == [] then 0 else ParseDecimal(s[..|s| - 1]) * 10 + DigitValue(s[|s| - 1])
  }

  /** Formatting a number and reading the digits back gives the number. */
  lemma {:induction false} ParseNatToString(n: nat)
    ensures ParseDecimal(NatToString(n)) == n
    decreases n
  {
    if n >= 10 {
      var s := NatToString(n);
      ParseNatToString(n / 10);
      assert s[..|s| - 1] == NatToString(n / 10);
    }
  }

  /** Different numbers format differently. */
  lemma NatToStringInjective(m: nat, n: nat)
    requires NatToString(m) == NatToString(n)
    ensures m == n
  {
    ParseNatToString(m);
    ParseNatToString(n);
  }
}
