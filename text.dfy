/**
 * Sequence and string primitives with the semantics of the Python built-ins
 * the server relies on: `in`, `split(sep, 1)`, `split(sep)`, `split()`,
 * `strip()`, `lstrip(ch)`, `startswith` and ASCII `lower()`.
 * All of them are generic over the element type, so the same definitions
 * serve `bytes` (sequences of `byte`) and `str` (sequences of `char`).
 */
module Text {
  import opened Wrappers

  /** One octet, as Python's `bytes` holds them. */
  type byte = x: int | 0 <= x < 256

  /** `pat` occurs in `s` starting at index `i`. */
  predicate OccursAt<T(==)>(s: seq<T>, pat: seq<T>, i: nat)
  {
    i + |pat| <= |s| && s[i..i + |pat|] == pat
  }

  /** Python's `pat in s`. */
  predicate Contains<T(==)>(s: seq<T>, pat: seq<T>)
  {
    exists i: nat :: i <= |s| && OccursAt(s, pat, i)
  }

  /** The first occurrence of `pat` in `s` at or after `from`, if any. */
  function IndexFrom<T(==)>(s: seq<T>, pat: seq<T>, from: nat): (r: Option<nat>)
    ensures r.Some? ==> from <= r.value && OccursAt(s, pat, r.value)
    ensures r.Some? ==> forall j: nat :: from <= j < r.value ==> !OccursAt(s, pat, j)
    ensures r.None? ==> forall j: nat :: from <= j ==> !OccursAt(s, pat, j)
    decreases |s| - from
  {
    if from + |pat| > |s| then None
    else if OccursAt(s, pat, from) then Some(from)
    else IndexFrom(s, pat, from + 1)
  }

  /** The first occurrence of `pat` in `s` (Python's `s.find(pat)` when found). */
  function IndexOf<T(==)>(s: seq<T>, pat: seq<T>): (r: Option<nat>)
    ensures r.Some? <==> Contains(s, pat)
    ensures r.Some? ==> OccursAt(s, pat, r.value) && forall j: nat :: j < r.value ==> !OccursAt(s, pat, j)
  {
    IndexFrom(s, pat, 0)
  }

  /** Python's `s.split(sep, 1)`: `Some((before, after))` around the first
      occurrence of `sep` when it yields two parts, `None` when it yields `[s]`. */
  function SplitOnce<T(==)>(s: seq<T>, sep: seq<T>): (r: Option<(seq<T>, seq<T>)>)
    ensures r.Some? <==> Contains(s, sep)
    ensures r.Some? ==> s == r.value.0 + sep + r.value.1
    ensures r.Some? ==> forall j: nat :: j < |r.value.0| ==> !OccursAt(s, sep, j)
  {
    match IndexOf(s, sep)
    case None => None
    case Some(i) =>
      assert s == s[..i] + sep + s[i + |sep|..];
      Some((s[..i], s[i + |sep|..]))
  }

  /** If `pat` occurs inside a prefix of `s`, it occurs in `s` at the same place. */
  lemma OccursInPrefix<T>(s: seq<T>, k: nat, pat: seq<T>, j: nat)
    requires k <= |s| && OccursAt(s[..k], pat, j)
    ensures OccursAt(s, pat, j)
  {
    assert s[j..j + |pat|] == s[..k][j..j + |pat|];
  }

  /** A one-element pattern occurs exactly where its element does. */
  lemma ContainsOne<T>(s: seq<T>, c: T)
    ensures Contains(s, [c]) <==> exists j :: 0 <= j < |s| && s[j] == c
  {
    if j :| 0 <= j < |s| && s[j] == c {
      assert OccursAt(s, [c], j);
    }
    if Contains(s, [c]) {
      var i: nat :| i <= |s| && OccursAt(s, [c], i);
      assert s[i..i + 1][0] == s[i];
    }
  }

  /** The text before the first separator never contains the separator. */
  lemma SplitOnceHeadClean<T>(s: seq<T>, sep: seq<T>)
    requires |sep| > 0 && SplitOnce(s, sep).Some?
    ensures !Contains(SplitOnce(s, sep).value.0, sep)
  {
    var a := SplitOnce(s, sep).value.0;
    assert a == s[..|a|];
    if j: nat :| OccursAt(a, sep, j) {
      OccursInPrefix(s, |a|, sep, j);
    }
  }

  /** Inverse of `Split`: the pieces glued back together with `sep`. */
  function Join<T>(pieces: seq<seq<T>>, sep: seq<T>): seq<T>
  {
    if |pieces| == 0 then []
    else if |pieces| == 1 then pieces[0]
    else pieces[0] + sep + Join(pieces[1..], sep)
  }

  /** Python's `s.split(sep)` for a non-empty `sep` (an empty separator
      raises `ValueError` in Python; every caller passes a literal). */
  function Split<T(==)>(s: seq<T>, sep: seq<T>): (r: seq<seq<T>>)
    requires |sep| > 0
    ensures |r| >= 1
    ensures Join(r, sep) == s
    ensures forall i :: 0 <= i < |r| ==> !Contains(r[i], sep)
    decreases |s|
  {
    match SplitOnce(s, sep)
    case None => [s]
    case Some((a, b)) =>
      SplitOnceHeadClean(s, sep);
      [a] + Split(b, sep)
  }

  /** The first piece of `s.split(sep)` is everything before the first
      separator, or the whole of `s` when there is none. */
  lemma SplitFirst<T>(s: seq<T>, sep: seq<T>)
    requires |sep| > 0
    ensures Split(s, sep)[0] == if Contains(s, sep) then SplitOnce(s, sep).value.0 else s
  {
  }

  lemma JoinThree<T>(a: seq<T>, b: seq<T>, c: seq<T>, sep: seq<T>)
    ensures Join([a, b, c], sep) == a + sep + b + sep + c
  {
    assert [a, b, c][1..] == [b, c] && [b, c][1..] == [c];
    assert Join([b, c], sep) == b + sep + c;
  }

  /** Pieces none of whose elements is the separator's first element: no
      separator starts inside a piece. */
  predicate FreeOf<T(==)>(pieces: seq<seq<T>>, c: T)
  {
    forall i, j :: 0 <= i < |pieces| && 0 <= j < |pieces[i]| ==> pieces[i][j] != c
  }

  /** A piece without the separator's first element holds no separator. */
  lemma NoOccurrence<T>(s: seq<T>, sep: seq<T>)
    requires |sep| > 0 && forall j :: 0 <= j < |s| ==> s[j] != sep[0]
    ensures !Contains(s, sep)
  {
    forall j: nat | j <= |s|
      ensures !OccursAt(s, sep, j)
    {
      if j + |sep| <= |s| {
        assert s[j..j + |sep|][0] == s[j];
      }
    }
  }

  /** Splitting a join recovers the pieces when the separator's first element
      occurs in none of them. */
  lemma {:induction false} SplitJoinFree<T>(pieces: seq<seq<T>>, sep: seq<T>)
    requires |sep| > 0 && |pieces| >= 1 && FreeOf(pieces, sep[0])
    ensures Split(Join(pieces, sep), sep) == pieces
    decreases |pieces|
  {
    var s := Join(pieces, sep);
    var first := pieces[0];
    assert forall j :: 0 <= j < |first| ==> first[j] != sep[0];
    if |pieces| == 1 {
      NoOccurrence(first, sep);
      assert s == first;
    } else {
      var rest := Join(pieces[1..], sep);
      assert s == first + sep + rest;
      var k := |first|;
      assert OccursAt(s, sep, k) by {
        assert s[k..k + |sep|] == sep;
      }
      forall j: nat | j < k
        ensures !OccursAt(s, sep, j)
      {
        assert s[j] == first[j];
        assert s[j..j + |sep|][0] == s[j];
      }
      var (a, b) := SplitOnce(s, sep).value;
      assert OccursAt(s, sep, |a|) by {
        assert s[|a|..|a| + |sep|] == sep;
      }
      assert |a| == k;
      assert a == first && b == rest;
      assert FreeOf(pieces[1..], sep[0]) by {
        forall i, j | 0 <= i < |pieces[1..]| && 0 <= j < |pieces[1..][i]|
          ensures pieces[1..][i][j] != sep[0]
        {
          assert pieces[1..][i] == pieces[i + 1];
        }
      }
      SplitJoinFree(pieces[1..], sep);
    }
  }

  /** Python's `s.startswith(prefix)`. */
  predicate StartsWith<T(==)>(s: seq<T>, prefix: seq<T>)
  {
    |prefix| <= |s| && s[..|prefix|] == prefix
  }

  /** The number of leading elements of `s` that satisfy `p`. */
  function LeadingCount<T>(s: seq<T>, p: T -> bool): (k: nat)
    ensures k <= |s|
    ensures forall i :: 0 <= i < k ==> p(s[i])
    ensures k < |s| ==> !p(s[k])
  {
    if s == [] || !p(s[0]) then 0 else 1 + LeadingCount(s[1..], p)
  }

  /** The number of trailing elements of `s` that satisfy `p`. */
  function TrailingCount<T>(s: seq<T>, p: T -> bool): (k: nat)
    ensures k <= |s|
    ensures forall i :: |s| - k <= i < |s| ==> p(s[i])
    ensures k < |s| ==> !p(s[|s| - 1 - k])
  {
    if s == [] || !p(s[|s| - 1]) then 0 else 1 + TrailingCount(s[..|s| - 1], p)
  }

  /** Python's `lstrip(chars)`: drop the leading elements satisfying `p`. */
  function TrimLeft<T>(s: seq<T>, p: T -> bool): (r: seq<T>)
    ensures |r| <= |s| && r == s[|s| - |r|..]
    ensures r != [] ==> !p(r[0])
    ensures forall i :: 0 <= i < |s| - |r| ==> p(s[i])
  {
    s[LeadingCount(s, p)..]
  }

  /** Python's `rstrip(chars)`: drop the trailing elements satisfying `p`. */
  function TrimRight<T>(s: seq<T>, p: T -> bool): (r: seq<T>)
    ensures |r| <= |s| && r == s[..|r|]
    ensures r != [] ==> !p(r[|r| - 1])
    ensures forall i :: |r| <= i < |s| ==> p(s[i])
  {
    s[..|s| - TrailingCount(s, p)]
  }

  /** Python's `strip()`: drop leading and trailing elements satisfying `p`;
      nothing is left exactly when every element satisfies `p`. */
  function Trim<T>(s: seq<T>, p: T -> bool): (r: seq<T>)
    ensures |r| <= |s|
    ensures r != [] ==> !p(r[0]) && !p(r[|r| - 1])
    ensures r == [] <==> forall i :: 0 <= i < |s| ==> p(s[i])
  {
    TrimRight(TrimLeft(s, p), p)
  }

  /** `str.isspace()` for one character: the code points CPython treats as
      whitespace when splitting and stripping strings. */
  predicate IsSpace(c: char)
  {
    ('\t' <= c <= '\r') || ('\U{1C}' <= c <= ' ') || c == '\U{85}' || c == '\U{A0}'
    || c == '\U{1680}' || ('\U{2000}' <= c <= '\U{200A}') || c == '\U{2028}'
    || c == '\U{2029}' || c == '\U{202F}' || c == '\U{205F}' || c == '\U{3000}'
  }

  /** ASCII whitespace, as `bytes.strip()` and `int()` on bytes see it. */
  predicate IsSpaceByte(b: byte)
  {
    b == 32 || 9 <= b <= 13
  }

  /** `str.strip()` with no argument. */
  function Strip(s: string): string
  {
    Trim(s, IsSpace)
  }

  /** `bytes.strip()` with no argument. */
  function StripBytes(s: seq<byte>): seq<byte>
  {
    Trim(s, IsSpaceByte)
  }

  /** Python's `s.lstrip(c)` for a single character `c`. */
  function LStripChar(s: string, c: char): (r: string)
    ensures r != [] ==> r[0] != c
    ensures |r| <= |s| && r == s[|s| - |r|..]
    ensures forall i :: 0 <= i < |s| - |r| ==> s[i] == c
  {
    TrimLeft(s, x => x == c)
  }

  /** Length of the leading run of whitespace characters. */
  function SpaceCount(s: string): (n: nat)
    ensures n <= |s|
    ensures forall i :: 0 <= i < n ==> IsSpace(s[i])
    ensures n < |s| ==> !IsSpace(s[n])
  {
    LeadingCount(s, IsSpace)
  }

  /** Length of the leading run of non-whitespace characters. */
  function WordLength(s: string): (n: nat)
    ensures n <= |s|
    ensures forall i :: 0 <= i < n ==> !IsSpace(s[i])
    ensures n < |s| ==> IsSpace(s[n])
  {
    LeadingCount(s, c => !IsSpace(c))
  }

  /** A non-empty run of non-whitespace characters. */
  predicate IsWord(w: string)
  {
    w != [] && forall j :: 0 <= j < |w| ==> !IsSpace(w[j])
  }

  /** Python's `str.split()` with no argument: the maximal runs of
      non-whitespace characters, in order. */
  function Words(s: string): (r: seq<string>)
    ensures forall i :: 0 <= i < |r| ==> IsWord(r[i])
    decreases |s|
  {
    var t := s[SpaceCount(s)..];
    if t == [] then []
    else
      var n := WordLength(t);
      [t[..n]] + Words(t[n..])
  }

  /** Text made only of whitespace. */
  predicate AllSpace(g: string)
  {
    forall i :: 0 <= i < |g| ==> IsSpace(g[i])
  }

  /** The whitespace runs around and between the pieces of `split()`: the
      leading run, then the run after each piece. */
  function Gaps(s: string): seq<string>
    decreases |s|
  {
    var k := SpaceCount(s);
    var t := s[k..];
    if t == [] then [s]
    else [s[..k]] + Gaps(t[WordLength(t)..])
  }

  /** `gaps[0] + words[0] + gaps[1] + ... + words[n - 1] + gaps[n]` */
  function Interleave(gaps: seq<string>, words: seq<string>): string
    requires |gaps| == |words| + 1
    decreases |words|
  {
    if words == [] then gaps[0]
    else gaps[0] + words[0] + Interleave(gaps[1..], words[1..])
  }

  /** What follows the first piece of `split()` and the whitespace before it. */
  function AfterFirst(s: string): string
    requires s[SpaceCount(s)..] != []
  {
    var t := s[SpaceCount(s)..];
    t[WordLength(t)..]
  }

  /** One step of `split()`: the leading run, the first piece, then the rest. */
  lemma GapsStep(s: string)
    requires s[SpaceCount(s)..] != []
    ensures var k := SpaceCount(s); var t := s[k..];
      && Gaps(s) == [s[..k]] + Gaps(AfterFirst(s))
      && Words(s) == [t[..WordLength(t)]] + Words(AfterFirst(s))
      && AllSpace(s[..k])
  {
  }

  /** The text of one step: the leading run, the first piece and the rest
      make up the text, and the rest starts with whitespace. */
  lemma StepText(s: string)
    requires s[SpaceCount(s)..] != []
    ensures var k := SpaceCount(s); var t := s[k..];
      && s == s[..k] + t[..WordLength(t)] + AfterFirst(s)
      && (AfterFirst(s) != [] ==> IsSpace(AfterFirst(s)[0]))
  {
    var k := SpaceCount(s);
    var t := s[k..];
    assert t == t[..WordLength(t)] + t[WordLength(t)..];
  }

  lemma {:induction false} GapsCount(s: string)
    ensures |Gaps(s)| == |Words(s)| + 1
    decreases |s|
  {
    if s[SpaceCount(s)..] != [] {
      GapsStep(s);
      GapsCount(AfterFirst(s));
    }
  }

  lemma {:induction false} GapsAllSpace(s: string)
    ensures forall i :: 0 <= i < |Gaps(s)| ==> AllSpace(Gaps(s)[i])
    decreases |s|
  {
    if s[SpaceCount(s)..] != [] {
      GapsStep(s);
      GapsAllSpace(AfterFirst(s));
    }
  }

  lemma GapsHead(s: string)
    requires s != [] && IsSpace(s[0])
    ensures Gaps(s)[0] != []
  {
  }

  lemma {:induction false} GapsInner(s: string)
    ensures |Gaps(s)| == |Words(s)| + 1
    ensures forall i :: 0 < i < |Words(s)| ==> Gaps(s)[i] != []
    decreases |s|
  {
    GapsCount(s);
    if s[SpaceCount(s)..] != [] {
      GapsStep(s);
      StepText(s);
      var rest := AfterFirst(s);
      GapsCount(rest);
      GapsInner(rest);
      if rest != [] {
        GapsHead(rest);
      }
    }
  }

  lemma {:induction false} GapsRejoin(s: string)
    ensures |Gaps(s)| == |Words(s)| + 1
    ensures Interleave(Gaps(s), Words(s)) == s
    decreases |s|
  {
    GapsCount(s);
    if s[SpaceCount(s)..] != [] {
      GapsStep(s);
      StepText(s);
      var rest := AfterFirst(s);
      GapsRejoin(rest);
      var g, w := Gaps(s), Words(s);
      assert g[1..] == Gaps(rest) && w[1..] == Words(rest);
    }
  }

  /** The text is whitespace runs alternating with the pieces of `split()`,
      and every run between two pieces is non-empty: each piece is a maximal
      run of non-whitespace, and the text is cut at every whitespace run. */
  lemma WordsLayout(s: string)
    ensures |Gaps(s)| == |Words(s)| + 1
    ensures forall i :: 0 <= i < |Gaps(s)| ==> AllSpace(Gaps(s)[i])
    ensures forall i :: 0 < i < |Words(s)| ==> Gaps(s)[i] != []
    ensures Interleave(Gaps(s), Words(s)) == s
  {
    GapsRejoin(s);
    GapsAllSpace(s);
    GapsInner(s);
  }

  /** A leading whitespace character is skipped by `split()`. */
  lemma WordsSkipSpace(s: string)
    requires s != [] && IsSpace(s[0])
    ensures Words(s) == Words(s[1..])
  {
    assert SpaceCount(s) == 1 + SpaceCount(s[1..]);
    assert s[SpaceCount(s)..] == s[1..][SpaceCount(s[1..])..];
  }

  /** A word followed by whitespace or nothing is the first piece of `split()`. */
  lemma WordsCons(w: string, rest: string)
    requires IsWord(w) && (rest == [] || IsSpace(rest[0]))
    ensures Words(w + rest) == [w] + Words(rest)
  {
    var s := w + rest;
    assert !IsSpace(s[0]) && SpaceCount(s) == 0;
    assert s[SpaceCount(s)..] == s;
    assert forall i :: 0 <= i < |w| ==> s[i] == w[i];
    assert rest != [] ==> s[|w|] == rest[0];
    var n := WordLength(s);
    assert n == |w|;
    assert s[..n] == w && s[n..] == rest;
  }

  /** A word after one space, followed by whitespace or nothing. */
  lemma WordsAfterSpace(w: string, rest: string)
    requires IsWord(w) && (rest == [] || IsSpace(rest[0]))
    ensures Words(" " + w + rest) == [w] + Words(rest)
  {
    var z := " " + w + rest;
    assert z[1..] == w + rest;
    WordsSkipSpace(z);
    WordsCons(w, rest);
  }

  lemma SpacedAssoc(a: string, b: string, c: string)
    ensures a + " " + b + " " + c == a + (" " + b + (" " + c))
  {
  }

  /** Two words, each after one space. */
  lemma WordsOfTwoSpaced(b: string, c: string)
    requires IsWord(b) && IsWord(c)
    ensures Words(" " + b + (" " + c)) == [b, c]
  {
    var tail := " " + c;
    WordsAfterSpace(c, []);
    assert " " + c + [] == tail;
    WordsAfterSpace(b, tail);
  }

  /** `split()` of three words joined by single spaces gives them back. */
  lemma WordsOfThree(a: string, b: string, c: string)
    requires IsWord(a) && IsWord(b) && IsWord(c)
    ensures Words(a + " " + b + " " + c) == [a, b, c]
  {
    var middle := " " + b + (" " + c);
    SpacedAssoc(a, b, c);
    assert Words(middle) == [b, c] by { WordsOfTwoSpaced(b, c); }
    assert Words(a + middle) == [a, b, c] by { WordsCons(a, middle); }
  }

  /** Text with no whitespace at either end is left alone by `strip()`. */
  lemma StripNoop(s: string)
    requires s != [] ==> !IsSpace(s[0]) && !IsSpace(s[|s| - 1])
    ensures Strip(s) == s
  {
  }

  /** The characters of `s` that are not whitespace, in order. */
  function NonSpace(s: string): string
  {
    if s == [] then []
    else (if IsSpace(s[0]) then [] else [s[0]]) + NonSpace(s[1..])
  }

  /** Concatenation of a sequence of sequences. */
  function Flatten<T>(ss: seq<seq<T>>): seq<T>
  {
    if ss == [] then [] else Flatten(ss[..|ss| - 1]) + ss[|ss| - 1]
  }

  lemma FlattenCons<T>(x: seq<T>, ss: seq<seq<T>>)
    ensures Flatten([x] + ss) == x + Flatten(ss)
    decreases |ss|
  {
    if ss != [] {
      var xs := [x] + ss;
      assert xs[..|xs| - 1] == [x] + ss[..|ss| - 1];
      FlattenCons(x, ss[..|ss| - 1]);
    }
  }

  lemma NonSpaceAppend(a: string, b: string)
    ensures NonSpace(a + b) == NonSpace(a) + NonSpace(b)
  {
    if a == [] {
      assert a + b == b;
    } else {
      var x := if IsSpace(a[0]) then [] else [a[0]];
      assert (a + b)[0] == a[0] && (a + b)[1..] == a[1..] + b;
      calc {
        NonSpace(a + b);
        x + NonSpace(a[1..] + b);
        { NonSpaceAppend(a[1..], b); }
        x + (NonSpace(a[1..]) + NonSpace(b));
        (x + NonSpace(a[1..])) + NonSpace(b);
      }
    }
  }

  lemma NonSpaceAllSpace(s: string)
    requires forall i :: 0 <= i < |s| ==> IsSpace(s[i])
    ensures NonSpace(s) == []
  {
    if s != [] { NonSpaceAllSpace(s[1..]); }
  }

  lemma NonSpaceNoSpace(s: string)
    requires forall i :: 0 <= i < |s| ==> !IsSpace(s[i])
    ensures NonSpace(s) == s
  {
    if s != [] { NonSpaceNoSpace(s[1..]); }
  }

  /** Leading whitespace contributes nothing to `NonSpace`. */
  lemma NonSpaceAfterLead(s: string)
    ensures NonSpace(s) == NonSpace(s[SpaceCount(s)..])
  {
    var k := SpaceCount(s);
    assert s == s[..k] + s[k..];
    NonSpaceAppend(s[..k], s[k..]);
    NonSpaceAllSpace(s[..k]);
  }

  /** A leading word is kept whole by `NonSpace`. */
  lemma NonSpaceWord(t: string)
    ensures NonSpace(t) == t[..WordLength(t)] + NonSpace(t[WordLength(t)..])
  {
    var n := WordLength(t);
    assert t == t[..n] + t[n..];
    NonSpaceAppend(t[..n], t[n..]);
    NonSpaceNoSpace(t[..n]);
  }

  /** Splitting on whitespace loses exactly the whitespace: the words,
      concatenated, are the input with its whitespace removed. */
  lemma {:induction false} WordsKeepText(s: string)
    ensures Flatten(Words(s)) == NonSpace(s)
    decreases |s|
  {
    var t := s[SpaceCount(s)..];
    NonSpaceAfterLead(s);
    if t != [] {
      var n := WordLength(t);
      NonSpaceWord(t);
      WordsKeepText(t[n..]);
      FlattenCons(t[..n], Words(t[n..]));
    }
  }

  /** ASCII `lower()` on one byte. */
  function LowerByte(b: byte): byte
  {
    if 65 <= b <= 90 then b + 32 else b
  }

  /** `bytes.lower()`: only ASCII letters change. */
  function LowerBytes(s: seq<byte>): (r: seq<byte>)
    ensures |r| == |s| && forall i :: 0 <= i < |s| ==> r[i] == LowerByte(s[i])
    ensures forall i :: 0 <= i < |r| ==> !(65 <= r[i] <= 90)
    ensures forall i :: 0 <= i < |r| ==> r[i] == s[i] || (65 <= s[i] <= 90 && r[i] == s[i] + 32)
  {
    seq(|s|, i requires 0 <= i < |s| => LowerByte(s[i]))
  }

  /** `str.lower()` restricted to the ASCII letters. */
  function LowerChar(c: char): char
  {
    if 'A' <= c <= 'Z' then (c as int + 32) as char else c
  }

  /** `str.lower()` on ASCII: no upper-case letter is left, and every
      character is kept or is an upper-case letter moved to its lower case. */
  function Lower(s: string): (r: string)
    ensures |r| == |s|
    ensures forall i :: 0 <= i < |r| ==> !('A' <= r[i] <= 'Z')
    ensures forall i :: 0 <= i < |r| ==> r[i] == s[i] || ('A' <= s[i] <= 'Z' && r[i] as int == s[i] as int + 32)
  {
    seq(|s|, i requires 0 <= i < |s| => LowerChar(s[i]))
  }
}
