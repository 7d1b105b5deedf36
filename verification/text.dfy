/** The Python string primitives the client relies on: `str.replace`,
    `str.split()` with no separator, `str.upper()`, and the first-match search
    behind `re.search('Response=(.*)', ...)`. Each is written out explicitly so
    that the codec proofs can reason about it. */
module Text {
  import opened Wrappers

  /** Python's `str.isspace()` for one character: the characters that
      `str.split()` with no argument treats as separators. Besides the usual
      ASCII blanks this includes the information separators 0x1c-0x1f. */
  predicate IsSpace(c: char) {
    || c == ' '
    || ('\t' <= c <= '\r')
    || ('\U{1c}' <= c <= '\U{1f}')
    || c == '\U{85}' || c == '\U{a0}' || c == '\U{1680}'
    || ('\U{2000}' <= c <= '\U{200a}')
    || c == '\U{2028}' || c == '\U{2029}' || c == '\U{202f}'
    || c == '\U{205f}' || c == '\U{3000}'
  }

  predicate NoSpace(s: string) {
    forall i :: 0 <= i < |s| ==> !IsSpace(s[i])
  }

  /** `p` occurs in `s` starting at index `i`. */
  predicate PrefixAt(s: string, i: int, p: string) {
    0 <= i && i + |p| <= |s| && s[i..i + |p|] == p
  }

  predicate Occurs(s: string, p: string) {
    exists i :: 0 <= i <= |s| && PrefixAt(s, i, p)
  }

  lemma OccursShift(s: string, p: string, i: int)
    requires |s| > 0 && PrefixAt(s[1..], i, p)
    ensures PrefixAt(s, i + 1, p)
  {
    assert s[i + 1..i + 1 + |p|] == s[1..][i..i + |p|];
  }

  // ---------------------------------------------------------------------------
  // str.replace
  // ---------------------------------------------------------------------------

  /** Python's `s.replace(p, r)`: scans left to right and replaces every
      non-overlapping occurrence of `p`. */
  function Replace(s: string, p: string, r: string): (out: string)
    requires |p| > 0
    ensures |r| <= |p| ==> |out| <= |s|
    decreases |s|
  {
    if |s| < |p| then s
    else if s[..|p|] == p then r + Replace(s[|p|..], p, r)
    else [s[0]] + Replace(s[1..], p, r)
  }

  /** Without an occurrence of the pattern, replacing changes nothing. */
  lemma {:induction false} ReplaceAbsent(s: string, p: string, r: string)
    requires |p| > 0 && !Occurs(s, p)
    ensures Replace(s, p, r) == s
    decreases |s|
  {
    if |s| >= |p| {
      assert !PrefixAt(s, 0, p);
      if Occurs(s[1..], p) {
        var i :| PrefixAt(s[1..], i, p);
        OccursShift(s, p, i);
        assert false;
      }
      ReplaceAbsent(s[1..], p, r);
      assert s == [s[0]] + s[1..];
    }
  }

  /** Replacing a pattern by itself changes nothing. */
  lemma {:induction false} ReplaceSelf(s: string, p: string)
    requires |p| > 0
    ensures Replace(s, p, p) == s
    decreases |s|
  {
    if |s| >= |p| {
      if s[..|p|] == p {
        ReplaceSelf(s[|p|..], p);
        assert s == s[..|p|] + s[|p|..];
      } else {
        ReplaceSelf(s[1..], p);
        assert s == [s[0]] + s[1..];
      }
    }
  }

  /** A prefix `t` in which no occurrence of `p` starts is copied unchanged. */
  lemma {:induction false} ReplaceKeepsPrefix(t: string, z: string, p: string, r: string)
    requires |p| > 0
    requires forall i :: 0 <= i < |t| ==> !PrefixAt(t + z, i, p)
    ensures Replace(t + z, p, r) == t + Replace(z, p, r)
    decreases |t|
  {
    if |t| > 0 {
      var s := t + z;
      assert !PrefixAt(s, 0, p);
      assert s[1..] == t[1..] + z;
      forall i | 0 <= i < |t[1..]|
        ensures !PrefixAt(t[1..] + z, i, p)
      {
        if PrefixAt(t[1..] + z, i, p) {
          OccursShift(s, p, i);
        }
      }
      ReplaceKeepsPrefix(t[1..], z, p, r);
      if |s| >= |p| {
        assert s[..|p|] != p;
        assert Replace(s, p, r) == [s[0]] + Replace(s[1..], p, r);
        assert s[0] == t[0];
        assert Replace(s[1..], p, r) == t[1..] + Replace(z, p, r);
        assert Replace(s, p, r) == [t[0]] + (t[1..] + Replace(z, p, r));
        assert [t[0]] + (t[1..] + Replace(z, p, r)) == t + Replace(z, p, r);
      } else {
        assert Replace(z, p, r) == z;
        assert Replace(s, p, r) == s;
      }
    } else {
      assert t + z == z;
    }
  }

  /** An occurrence at the very start is replaced. */
  lemma ReplaceAtStart(p: string, z: string, r: string)
    requires |p| > 0
    ensures Replace(p + z, p, r) == r + Replace(z, p, r)
  {
    assert (p + z)[..|p|] == p;
    assert (p + z)[|p|..] == z;
  }

  /** Replacing one character by another is a character-wise substitution. */
  function Subst(s: string, a: char, b: char): (out: string)
    ensures |out| == |s|
  {
    seq(|s|, i requires 0 <= i < |s| => if s[i] == a then b else s[i])
  }

  lemma {:induction false} ReplaceCharIsSubst(s: string, a: char, b: char)
    ensures Replace(s, [a], [b]) == Subst(s, a, b)
    decreases |s|
  {
    if |s| > 0 {
      ReplaceCharIsSubst(s[1..], a, b);
      if s[0] == a {
        assert s[..1] == [a];
      } else {
        assert s[..1] != [a];
      }
    }
  }

  /** A first character of the output is either the replacement or the input's
      own first character. */
  lemma ReplaceHead(s: string, q: string, c: char)
    requires |q| > 0 && |s| > 0
    ensures |Replace(s, q, [c])| > 0
    ensures PrefixAt(s, 0, q) ==> Replace(s, q, [c]) == [c] + Replace(s[|q|..], q, [c])
    ensures !PrefixAt(s, 0, q) ==> Replace(s, q, [c]) == [s[0]] + Replace(s[1..], q, [c])
  {
  }

  /** With a one-character replacement that is not a character of the
      three-character pattern `p`, every occurrence of `p` in the output was
      already in the input, and none survives when `p` is the pattern replaced. */
  lemma {:induction false} ReplaceOccurs(s: string, q: string, c: char, p: string, i: int)
    requires |q| > 0 && |p| == 3 && c !in p
    requires PrefixAt(Replace(s, q, [c]), i, p)
    ensures Occurs(s, p) && p != q
    decreases |s|
  {
    var out := Replace(s, q, [c]);
    if |s| < |q| {
      assert out == s;
      assert PrefixAt(s, i, p);
      assert p != q;
    } else if PrefixAt(s, 0, q) {
      ReplaceHead(s, q, c);
      assert i != 0 by { assert out[0] == c && p[0] != c; }
      var rest := Replace(s[|q|..], q, [c]);
      assert out[1..] == rest;
      assert rest[i - 1..i - 1 + 3] == out[i..i + 3];
      ReplaceOccurs(s[|q|..], q, c, p, i - 1);
      var j :| 0 <= j <= |s[|q|..]| && PrefixAt(s[|q|..], j, p);
      PrefixAtDrop(s, |q|, p, j);
    } else {
      ReplaceHead(s, q, c);
      var rest := Replace(s[1..], q, [c]);
      assert out == [s[0]] + rest;
      if i > 0 {
        assert out[1..] == rest;
        assert rest[i - 1..i - 1 + 3] == out[i..i + 3];
        ReplaceOccurs(s[1..], q, c, p, i - 1);
        var j :| PrefixAt(s[1..], j, p);
        OccursShift(s, p, j);
        if p == q {
          assert false;
        }
      } else {
        // the window out[0..3] holds s[0], s[1], s[2]
        assert out[1] == p[1] && out[2] == p[2];
        ReplaceHead(s[1..], q, c);
        assert rest[0] == p[1];
        assert !PrefixAt(s[1..], 0, q);
        var rest2 := Replace(s[2..], q, [c]);
        assert s[1..][1..] == s[2..];
        assert rest == [s[1]] + rest2;
        assert |rest2| > 0;
        ReplaceHead(s[2..], q, c);
        assert rest2[0] == p[2];
        assert !PrefixAt(s[2..], 0, q);
        assert s[0] == p[0] && s[1] == p[1] && s[2] == p[2];
        assert s[0..3] == p;
        assert PrefixAt(s, 0, p);
        if p == q {
          assert false;
        }
      }
    }
  }

  /** A one-character replacement adds no character other than itself. */
  lemma {:induction false} ReplaceNoNewChar(s: string, q: string, c: char, x: char)
    requires |q| > 0 && x in Replace(s, q, [c])
    ensures x in s || x == c
    decreases |s|
  {
    if |s| >= |q| {
      if s[..|q|] == q {
        if x != c {
          ReplaceNoNewChar(s[|q|..], q, c, x);
        }
      } else if x != s[0] {
        ReplaceNoNewChar(s[1..], q, c, x);
      }
    }
  }

  // ---------------------------------------------------------------------------
  // str.split() with no separator
  // ---------------------------------------------------------------------------

  /** Length of the leading run of non-space characters. */
  function RunLength(s: string): (n: nat)
    ensures n <= |s|
    ensures forall i :: 0 <= i < n ==> !IsSpace(s[i])
    ensures n < |s| ==> IsSpace(s[n])
  {
    if |s| == 0 || IsSpace(s[0]) then 0 else 1 + RunLength(s[1..])
  }

  /** Python's `s.split()`: the maximal runs of non-space characters, in order. */
  function Words(s: string): (ws: seq<string>)
    ensures forall i :: 0 <= i < |ws| ==> |ws[i]| > 0 && NoSpace(ws[i])
    decreases |s|
  {
    if |s| == 0 then []
    else if IsSpace(s[0]) then Words(s[1..])
    else
      var n := RunLength(s);
      [s[..n]] + Words(s[n..])
  }

  /** The text with every whitespace character removed. */
  function Strip(s: string): string {
    if |s| == 0 then "" else (if IsSpace(s[0]) then "" else [s[0]]) + Strip(s[1..])
  }

  /** The words written one after the other. */
  function Concat(ws: seq<string>): string {
    if |ws| == 0 then "" else ws[0] + Concat(ws[1..])
  }

  lemma {:induction false} StripAppend(a: string, b: string)
    ensures Strip(a + b) == Strip(a) + Strip(b)
  {
    if |a| > 0 {
      assert (a + b)[0] == a[0];
      assert (a + b)[1..] == a[1..] + b;
      StripAppend(a[1..], b);
    } else {
      assert a + b == b;
    }
  }

  lemma {:induction false} StripNoSpace(w: string)
    requires NoSpace(w)
    ensures Strip(w) == w
  {
    if |w| > 0 {
      StripNoSpace(w[1..]);
      assert w == [w[0]] + w[1..];
    }
  }

  /** `split()` drops nothing but whitespace: the words, written together, are
      the text with its whitespace removed. */
  lemma {:induction false} WordsCover(s: string)
    ensures Concat(Words(s)) == Strip(s)
    decreases |s|
  {
    if |s| > 0 {
      if IsSpace(s[0]) {
        WordsCover(s[1..]);
      } else {
        var n := RunLength(s);
        assert n > 0;
        var ws := Words(s);
        assert ws == [s[..n]] + Words(s[n..]);
        assert ws[1..] == Words(s[n..]);
        WordsCover(s[n..]);
        assert s == s[..n] + s[n..];
        StripAppend(s[..n], s[n..]);
        StripNoSpace(s[..n]);
      }
    }
  }

  /** A text without whitespace is one word: `split()` never breaks a run. */
  lemma WordsOfWord(w: string)
    requires |w| > 0 && NoSpace(w)
    ensures Words(w) == [w]
  {
    assert RunLength(w) == |w|;
    assert w[..|w|] == w && w[|w|..] == "";
  }

  /** The run at the start of `s` ends at the first whitespace character. */
  lemma RunLengthAt(s: string, m: nat)
    requires m < |s| && IsSpace(s[m])
    requires forall i :: 0 <= i < m ==> !IsSpace(s[i])
    ensures RunLength(s) == m
  {
  }

  /** Text that starts with whitespace does not extend a run. */
  lemma RunLengthAppend(a: string, z: string)
    requires |z| > 0 && IsSpace(z[0])
    ensures RunLength(a + z) == RunLength(a)
  {
    var m := RunLength(a);
    var s := a + z;
    assert s[m] == if m < |a| then a[m] else z[0];
    assert forall i :: 0 <= i < m ==> s[i] == a[i];
    RunLengthAt(s, m);
  }

  /** Text that starts with whitespace splits apart from what precedes it. */
  lemma {:induction false} WordsAppend(a: string, z: string)
    requires |z| > 0 && IsSpace(z[0])
    ensures Words(a + z) == Words(a) + Words(z)
    decreases |a|
  {
    if |a| == 0 {
      assert a + z == z;
    } else if IsSpace(a[0]) {
      var s := a + z;
      assert s[0] == a[0] && s[1..] == a[1..] + z;
      WordsAppend(a[1..], z);
    } else {
      var s := a + z;
      var m := RunLength(a);
      RunLengthAppend(a, z);
      assert s[0] == a[0];
      assert s[..m] == a[..m];
      assert s[m..] == a[m..] + z;
      WordsAppend(a[m..], z);
    }
  }

  /** `split()` breaks at every whitespace character and nowhere else: a
      whitespace character splits the text into two independent halves. */
  lemma WordsAtSpace(a: string, c: char, b: string)
    requires IsSpace(c)
    ensures Words(a + [c] + b) == Words(a) + Words(b)
  {
    var z := [c] + b;
    assert a + [c] + b == a + z;
    WordsAppend(a, z);
    assert z[1..] == b;
  }

  /** Each word followed by a single blank. */
  function Spaced(ws: seq<string>): string {
    if |ws| == 0 then "" else ws[0] + " " + Spaced(ws[1..])
  }

  lemma WordsCons(w: string, rest: string)
    requires |w| > 0 && NoSpace(w)
    ensures Words(w + " " + rest) == [w] + Words(rest)
  {
    var s := w + " " + rest;
    assert s[|w|] == ' ';
    assert RunLength(s) == |w|;
    assert s[..|w|] == w;
    assert s[|w|..] == " " + rest;
    assert (" " + rest)[1..] == rest;
  }

  /** Splitting undoes blank-separated joining of non-empty blank-free words. */
  lemma {:induction false} WordsSpaced(ws: seq<string>)
    requires forall i :: 0 <= i < |ws| ==> |ws[i]| > 0 && NoSpace(ws[i])
    ensures Words(Spaced(ws)) == ws
  {
    if |ws| > 0 {
      WordsSpaced(ws[1..]);
      WordsCons(ws[0], Spaced(ws[1..]));
    }
  }

  /** Python's `sep.join(xs)`. */
  function Join(sep: string, xs: seq<string>): string {
    if |xs| == 0 then ""
    else if |xs| == 1 then xs[0]
    else xs[0] + sep + Join(sep, xs[1..])
  }

  lemma JoinCons(sep: string, x: string, xs: seq<string>)
    requires |xs| > 0
    ensures Join(sep, [x] + xs) == x + sep + Join(sep, xs)
  {
    assert ([x] + xs)[1..] == xs;
  }

  /** Python's `s.split(sep)` for a one-character separator: the pieces
      between separators, empty ones included. */
  function SplitOn(s: string, sep: char): (fs: seq<string>)
    ensures |fs| > 0
  {
    if |s| == 0 then [""]
    else
      var rest := SplitOn(s[1..], sep);
      if s[0] == sep then [""] + rest else [[s[0]] + rest[0]] + rest[1..]
  }

  lemma {:induction false} SplitOnPiece(a: string, sep: char, z: string)
    requires sep !in a
    ensures SplitOn(a + z, sep) == [a + SplitOn(z, sep)[0]] + SplitOn(z, sep)[1..]
  {
    if |a| > 0 {
      var s := a + z;
      var tail := a[1..];
      assert s[1..] == tail + z;
      assert s[0] == a[0] && a[0] != sep by { assert a[0] in a; }
      SplitOnPiece(tail, sep, z);
      var rest := SplitOn(tail + z, sep);
      assert SplitOn(s, sep) == [[a[0]] + rest[0]] + rest[1..];
      assert [a[0]] + (tail + SplitOn(z, sep)[0]) == a + SplitOn(z, sep)[0] by {
        assert a == [a[0]] + tail;
      }
    } else {
      var pieces := SplitOn(z, sep);
      assert a + z == z;
      assert a + pieces[0] == pieces[0];
      assert pieces == [pieces[0]] + pieces[1..];
    }
  }

  /** Splitting undoes joining when no piece holds the separator. */
  lemma {:induction false} SplitOnJoin(fs: seq<string>, sep: char)
    requires |fs| > 0
    requires forall i :: 0 <= i < |fs| ==> sep !in fs[i]
    ensures SplitOn(Join([sep], fs), sep) == fs
  {
    if |fs| == 1 {
      SplitOnPiece(fs[0], sep, "");
      assert fs[0] + "" == fs[0];
    } else {
      SplitOnJoin(fs[1..], sep);
      var rest := Join([sep], fs[1..]);
      assert Join([sep], fs) == fs[0] + ([sep] + rest);
      SplitOnPiece(fs[0], sep, [sep] + rest);
      assert ([sep] + rest)[1..] == rest;
      assert SplitOn([sep] + rest, sep) == [""] + fs[1..];
      assert fs[0] + "" == fs[0];
      assert fs == [fs[0]] + fs[1..];
    }
  }

  // ---------------------------------------------------------------------------
  // search
  // ---------------------------------------------------------------------------

  /** Index of the first occurrence of `p` in `s`. */
  function Find(s: string, p: string): (r: Option<nat>)
    requires |p| > 0
    ensures r.Some? ==> PrefixAt(s, r.value, p)
    ensures r.Some? ==> forall j :: 0 <= j < r.value ==> !PrefixAt(s, j, p)
    ensures r.None? <==> !Occurs(s, p)
    decreases |s|
  {
    if |s| < |p| then None
    else if s[..|p|] == p then Some(0)
    else
      var r := Find(s[1..], p);
      PrefixAtTail(s, p);
      if r.None? then None else Some(r.value + 1)
  }

  /** Past index 0, an occurrence in `s` is an occurrence in `s[1..]` one
      position earlier. */
  lemma PrefixAtTail(s: string, p: string)
    requires |s| > 0
    ensures forall j :: 1 <= j ==> (PrefixAt(s, j, p) <==> PrefixAt(s[1..], j - 1, p))
  {
    forall j | 1 <= j
      ensures PrefixAt(s, j, p) <==> PrefixAt(s[1..], j - 1, p)
    {
      PrefixAtDrop(s, 1, p, j - 1);
    }
  }

  /** `p` occurs in `s[k..]` at `j` exactly when it occurs in `s` at `k + j`. */
  lemma PrefixAtDrop(s: string, k: nat, p: string, j: int)
    requires k <= |s| && 0 <= j
    ensures PrefixAt(s[k..], j, p) <==> PrefixAt(s, k + j, p)
  {
    if k + j + |p| <= |s| {
      assert s[k..][j..j + |p|] == s[k + j..k + j + |p|];
    }
  }

  /** The text up to, not including, the first line feed: what `.*` matches. */
  function TakeLine(s: string): (line: string)
    ensures line <= s
    ensures '\n' !in line
    ensures |line| < |s| ==> s[|line|] == '\n'
  {
    if |s| == 0 || s[0] == '\n' then "" else [s[0]] + TakeLine(s[1..])
  }

  // ---------------------------------------------------------------------------
  // str.upper
  // ---------------------------------------------------------------------------

  predicate IsLowerAscii(c: char) {
    'a' <= c <= 'z'
  }

  function UpperChar(c: char): char {
    if IsLowerAscii(c) then (c as int - 32) as char else c
  }

  /** `s.upper()` restricted to the ASCII letters: every lower-case letter
      moves to its capital 32 code points lower, and nothing else changes. */
  function Upper(s: string): (u: string)
    ensures |u| == |s|
    ensures forall i :: 0 <= i < |s| ==> !IsLowerAscii(u[i])
    ensures forall i :: 0 <= i < |s| && !IsLowerAscii(s[i]) ==> u[i] == s[i]
    ensures forall i :: 0 <= i < |s| && IsLowerAscii(s[i]) ==> u[i] as int == s[i] as int - 32
  {
    seq(|s|, i requires 0 <= i < |s| => UpperChar(s[i]))
  }

  /** Upper-casing an upper-cased text changes nothing more. */
  lemma UpperIdempotent(s: string)
    ensures Upper(Upper(s)) == Upper(s)
  {
  }
}
