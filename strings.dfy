/**
 * The Swift `String` operations the library relies on: trimming a character
 * set from both ends, and splitting on a separator character with or without
 * the empty pieces.
 */
module Strings {
  import opened Chars

  // ---------------------------------------------------------------------------
  // trimmingCharacters(in:)
  // ---------------------------------------------------------------------------

  /** Drops the leading characters that lie in `cs`. */
  function TrimStart(s: string, cs: CharacterSet): (r: string)
    ensures |r| <= |s| && r == s[|s| - |r|..]
    ensures forall k :: 0 <= k < |s| - |r| ==> InSet(cs, s[k])
    ensures r != [] ==> !InSet(cs, r[0])
    decreases |s|
  {
    if s != [] && InSet(cs, s[0]) then TrimStart(s[1..], cs) else s
  }

  /** Drops the trailing characters that lie in `cs`. */
  function TrimEnd(s: string, cs: CharacterSet): (r: string)
    ensures |r| <= |s| && r == s[..|r|]
    ensures forall k :: |r| <= k < |s| ==> InSet(cs, s[k])
    ensures r != [] ==> !InSet(cs, r[|r| - 1])
    decreases |s|
  {
    if s != [] && InSet(cs, s[|s| - 1]) then TrimEnd(s[..|s| - 1], cs) else s
  }

  /** `s.trimmingCharacters(in: cs)`. */
  function Trim(s: string, cs: CharacterSet): string
  {
    TrimEnd(TrimStart(s, cs), cs)
  }

  /** `s[i..j]` is what trimming `cs` from both ends of `s` leaves. */
  predicate TrimmedTo(s: string, cs: CharacterSet, i: int, j: int)
  {
    && 0 <= i <= j <= |s|
    && (forall k :: 0 <= k < i ==> InSet(cs, s[k]))
    && (forall k :: j <= k < |s| ==> InSet(cs, s[k]))
    && (i < j ==> !InSet(cs, s[i]) && !InSet(cs, s[j - 1]))
  }

  lemma TrimEndSlice(s: string, cs: CharacterSet, i: nat, t: string, r: string)
    requires i <= |s| && t == s[i..] && r == TrimEnd(t, cs)
    ensures i + |r| <= |s| && r == s[i..i + |r|]
    ensures forall k :: i + |r| <= k < |s| ==> InSet(cs, s[k])
    ensures r != [] ==> s[i] == r[0] && s[i + |r| - 1] == r[|r| - 1]
  {
    var j := i + |r|;
    assert r == t[..|r|];
    forall k | j <= k < |s| ensures InSet(cs, s[k]) {
      assert s[k] == t[k - i];
    }
  }

  /**
   * Trimming keeps one contiguous slice of the input: everything before and
   * after it lies in the set, its own ends do not, and its interior is kept
   * as it is.
   */
  lemma TrimSlice(s: string, cs: CharacterSet)
    ensures exists i, j :: TrimmedTo(s, cs, i, j) && Trim(s, cs) == s[i..j]
  {
    var t := TrimStart(s, cs);
    var r := TrimEnd(t, cs);
    var i := |s| - |t|;
    var j := i + |r|;
    TrimEndSlice(s, cs, i, t, r);
    assert r != [] ==> r[0] == t[0];
    assert forall k :: 0 <= k < i ==> InSet(cs, s[k]);
    assert i < j ==> !InSet(cs, s[i]) && !InSet(cs, s[j - 1]);
    assert TrimmedTo(s, cs, i, j);
  }

  /** The trimmed string is empty exactly when every character lies in the set. */
  lemma TrimEmptyIff(s: string, cs: CharacterSet)
    ensures Trim(s, cs) == [] <==> forall k :: 0 <= k < |s| ==> InSet(cs, s[k])
  {
    TrimSlice(s, cs);
    var i, j :| TrimmedTo(s, cs, i, j) && Trim(s, cs) == s[i..j];
  }

  /** Two non-empty trimmed slices of one string are the same slice. */
  lemma TrimmedToUnique(s: string, cs: CharacterSet, i: int, j: int, i': int, j': int)
    requires TrimmedTo(s, cs, i, j) && TrimmedTo(s, cs, i', j')
    requires i < j && i' < j'
    ensures i == i' && j == j'
  {
  }

  /** A core padded with characters of the set is a trimmed slice of the padded string. */
  lemma PaddedTrimmedTo(before: string, core: string, after: string, cs: CharacterSet)
    requires forall k :: 0 <= k < |before| ==> InSet(cs, before[k])
    requires forall k :: 0 <= k < |after| ==> InSet(cs, after[k])
    requires core != [] ==> !InSet(cs, core[0]) && !InSet(cs, core[|core| - 1])
    ensures TrimmedTo(before + core + after, cs, |before|, |before| + |core|)
    ensures (before + core + after)[|before|..|before| + |core|] == core
  {
    var s := before + core + after;
    var i, j := |before|, |before| + |core|;
    forall k | 0 <= k < i ensures InSet(cs, s[k]) { assert s[k] == before[k]; }
    forall k | j <= k < |s| ensures InSet(cs, s[k]) { assert s[k] == after[k - j]; }
    if core != [] {
      assert s[i] == core[0] && s[j - 1] == core[|core| - 1];
    }
    assert s[i..j] == core;
  }

  /**
   * The converse of TrimSlice: a core that starts and ends outside the set,
   * padded on both sides with characters of the set, trims to that core.
   */
  lemma TrimPadded(before: string, core: string, after: string, cs: CharacterSet)
    requires forall k :: 0 <= k < |before| ==> InSet(cs, before[k])
    requires forall k :: 0 <= k < |after| ==> InSet(cs, after[k])
    requires core != [] ==> !InSet(cs, core[0]) && !InSet(cs, core[|core| - 1])
    ensures Trim(before + core + after, cs) == core
  {
    var s := before + core + after;
    PaddedTrimmedTo(before, core, after, cs);
    TrimSlice(s, cs);
    var i, j :| TrimmedTo(s, cs, i, j) && Trim(s, cs) == s[i..j];
    if core == [] {
      TrimEmptyIff(s, cs);
    } else if i < j {
      TrimmedToUnique(s, cs, i, j, |before|, |before| + |core|);
    }
  }

  // ---------------------------------------------------------------------------
  // split(separator:omittingEmptySubsequences:)
  // ---------------------------------------------------------------------------

  /** The number of occurrences of `c` in `s`. */
  function Count(s: string, c: char): nat
    decreases |s|
  {
    if s == [] then 0 else (if s[0] == c then 1 else 0) + Count(s[1..], c)
  }

  /** `s` with every occurrence of `c` removed. */
  function Remove(s: string, c: char): string
    decreases |s|
  {
    if s == [] then [] else (if s[0] == c then [] else [s[0]]) + Remove(s[1..], c)
  }

  /** The pieces joined back together, without separators. */
  function Concat(parts: seq<string>): string
    decreases |parts|
  {
    if parts == [] then [] else parts[0] + Concat(parts[1..])
  }

  /** The pieces joined back together with `sep` between neighbours. */
  function Join(parts: seq<string>, sep: char): string
    decreases |parts|
  {
    if |parts| == 0 then []
    else if |parts| == 1 then parts[0]
    else parts[0] + [sep] + Join(parts[1..], sep)
  }

  /**
   * `s.split(separator: sep, omittingEmptySubsequences: false)`: the maximal
   * separator-free pieces, empty ones included, one more than there are
   * separators.
   */
  function Split(s: string, sep: char): (parts: seq<string>)
    ensures |parts| == Count(s, sep) + 1
    ensures forall i :: 0 <= i < |parts| ==> sep !in parts[i]
    decreases |s|
  {
    if s == [] then [[]]
    else
      var rest := Split(s[1..], sep);
      if s[0] == sep then [[]] + rest
      else [[s[0]] + rest[0]] + rest[1..]
  }

  /** The pieces that are not empty, in order. */
  function NonEmpty(parts: seq<string>): (r: seq<string>)
    ensures forall i :: 0 <= i < |r| ==> r[i] != []
    decreases |parts|
  {
    if parts == [] then []
    else (if parts[0] == [] then [] else [parts[0]]) + NonEmpty(parts[1..])
  }

  /** `s.split(separator: sep)`, whose default omits the empty pieces. */
  function Words(s: string, sep: char): seq<string>
  {
    NonEmpty(Split(s, sep))
  }

  /** Joining the pieces of a split with the separator gives back the input. */
  lemma {:induction false} JoinSplit(s: string, sep: char)
    ensures Join(Split(s, sep), sep) == s
    decreases |s|
  {
    if s != [] {
      var rest := Split(s[1..], sep);
      JoinSplit(s[1..], sep);
      if s[0] == sep {
        assert Split(s, sep) == [[]] + rest;
        assert ([[]] + rest)[1..] == rest;
      } else {
        var parts := [[s[0]] + rest[0]] + rest[1..];
        assert Split(s, sep) == parts;
        if |rest| > 1 {
          assert parts[1..] == rest[1..];
          assert Join(rest, sep) == rest[0] + [sep] + Join(rest[1..], sep);
        }
      }
    }
  }

  /** A separator-free string is a single piece. */
  lemma {:induction false} SplitWithoutSeparator(s: string, sep: char)
    requires sep !in s
    ensures Split(s, sep) == [s]
    decreases |s|
  {
    if s != [] {
      assert s[0] != sep && sep !in s[1..];
      SplitWithoutSeparator(s[1..], sep);
      assert [s[0]] + s[1..] == s;
    }
  }

  /** One step of Split, on a string given as its first character and the rest. */
  lemma SplitCons(c: char, t: string, sep: char)
    ensures Split([c] + t, sep)
      == if c == sep then [[]] + Split(t, sep)
         else [[c] + Split(t, sep)[0]] + Split(t, sep)[1..]
  {
    assert ([c] + t)[1..] == t;
  }

  lemma GlueFirst(x: string, left: seq<string>, right: seq<string>)
    requires |left| >= 1
    ensures [x + left[0]] + left[1..] + right == [x + (left + right)[0]] + (left + right)[1..]
  {
    assert (left + right)[0] == left[0];
    assert (left + right)[1..] == left[1..] + right;
  }

  /** Splitting at one separator splits the two sides independently. */
  lemma {:induction false} SplitAtSeparator(a: string, b: string, sep: char)
    ensures Split(a + [sep] + b, sep) == Split(a, sep) + Split(b, sep)
    decreases |a|
  {
    if a == [] {
      assert a + [sep] + b == [sep] + b;
      SplitCons(sep, b, sep);
    } else {
      var c, a' := a[0], a[1..];
      assert a + [sep] + b == [c] + (a' + [sep] + b);
      assert a == [c] + a';
      SplitCons(c, a' + [sep] + b, sep);
      SplitCons(c, a', sep);
      SplitAtSeparator(a', b, sep);
      var left, right := Split(a', sep), Split(b, sep);
      if c == sep {
        assert [[]] + (left + right) == ([[]] + left) + right;
      } else {
        GlueFirst([c], left, right);
      }
    }
  }

  /**
   * The converse of JoinSplit: pieces that hold no separator come back
   * unchanged from splitting their join.
   */
  lemma {:induction false} SplitJoin(parts: seq<string>, sep: char)
    requires |parts| >= 1
    requires forall i :: 0 <= i < |parts| ==> sep !in parts[i]
    ensures Split(Join(parts, sep), sep) == parts
    decreases |parts|
  {
    SplitWithoutSeparator(parts[0], sep);
    if |parts| > 1 {
      SplitJoin(parts[1..], sep);
      SplitAtSeparator(parts[0], Join(parts[1..], sep), sep);
    }
  }

  /** Concatenating the pieces of a split gives the input without its separators. */
  lemma {:induction false} ConcatSplit(s: string, sep: char)
    ensures Concat(Split(s, sep)) == Remove(s, sep)
    decreases |s|
  {
    if s != [] {
      var rest := Split(s[1..], sep);
      ConcatSplit(s[1..], sep);
      if s[0] == sep {
        assert Split(s, sep) == [[]] + rest;
        assert ([[]] + rest)[1..] == rest;
      } else {
        var parts := [[s[0]] + rest[0]] + rest[1..];
        assert Split(s, sep) == parts;
        assert parts[1..] == rest[1..];
        assert Concat(rest) == rest[0] + Concat(rest[1..]);
      }
    }
  }

  lemma {:induction false} NonEmptyAppend(x: seq<string>, y: seq<string>)
    ensures NonEmpty(x + y) == NonEmpty(x) + NonEmpty(y)
    decreases |x|
  {
    if x == [] {
      assert x + y == y;
    } else {
      var head := if x[0] == [] then [] else [x[0]];
      assert (x + y)[0] == x[0] && (x + y)[1..] == x[1..] + y;
      NonEmptyAppend(x[1..], y);
      calc {
        NonEmpty(x + y);
        head + NonEmpty(x[1..] + y);
        head + (NonEmpty(x[1..]) + NonEmpty(y));
        (head + NonEmpty(x[1..])) + NonEmpty(y);
        NonEmpty(x) + NonEmpty(y);
      }
    }
  }

  /** Splitting at a separator and dropping empty pieces works side by side. */
  lemma WordsAtSeparator(a: string, b: string, sep: char)
    ensures Words(a + [sep] + b, sep) == Words(a, sep) + Words(b, sep)
  {
    SplitAtSeparator(a, b, sep);
    NonEmptyAppend(Split(a, sep), Split(b, sep));
  }

  /** A separator-free string is one word, or none when it is empty. */
  lemma WordsWithoutSeparator(s: string, sep: char)
    requires sep !in s
    ensures Words(s, sep) == if s == [] then [] else [s]
  {
    SplitWithoutSeparator(s, sep);
    assert NonEmpty([s]) == (if s == [] then [] else [s]) + NonEmpty([]);
  }

  lemma {:induction false} NonEmptyConcat(parts: seq<string>)
    ensures NonEmpty(parts) == [] <==> Concat(parts) == []
    decreases |parts|
  {
    if parts != [] {
      NonEmptyConcat(parts[1..]);
    }
  }

  lemma {:induction false} RemoveEmptyIff(s: string, c: char)
    ensures Remove(s, c) == [] <==> forall k :: 0 <= k < |s| ==> s[k] == c
    decreases |s|
  {
    if s != [] {
      RemoveEmptyIff(s[1..], c);
      assert forall k :: 1 <= k < |s| ==> s[k] == s[1..][k - 1];
    }
  }

  /** There is no word at all exactly when the string is made of separators only. */
  lemma NoWordsIff(s: string, sep: char)
    ensures Words(s, sep) == [] <==> forall k :: 0 <= k < |s| ==> s[k] == sep
  {
    NonEmptyConcat(Split(s, sep));
    ConcatSplit(s, sep);
    RemoveEmptyIff(s, sep);
  }

  /** `n` copies of `c`. */
  function Repeat(c: char, n: nat): (s: string)
    ensures |s| == n && forall k :: 0 <= k < n ==> s[k] == c
  {
    seq(n, _ => c)
  }

  /** Separators in front of a string add no word. */
  lemma LeadingSeparators(n: nat, s: string, sep: char)
    ensures Words(Repeat(sep, n) + s, sep) == Words(s, sep)
  {
    if n == 0 {
      assert Repeat(sep, n) + s == s;
    } else {
      var pad := Repeat(sep, n - 1);
      assert Repeat(sep, n) + s == pad + [sep] + s;
      WordsAtSeparator(pad, s, sep);
      NoWordsIff(pad, sep);
    }
  }

  /** Separators after a string add no word. */
  lemma TrailingSeparators(s: string, n: nat, sep: char)
    ensures Words(s + Repeat(sep, n), sep) == Words(s, sep)
  {
    if n == 0 {
      assert s + Repeat(sep, n) == s;
    } else {
      var pad := Repeat(sep, n - 1);
      assert s + Repeat(sep, n) == s + [sep] + pad;
      WordsAtSeparator(s, pad, sep);
      NoWordsIff(pad, sep);
    }
  }

  /** A run of one or more separators between two strings keeps their words apart, however long it is. */
  lemma SeparatorRun(a: string, n: nat, b: string, sep: char)
    ensures Words(a + Repeat(sep, n + 1) + b, sep) == Words(a, sep) + Words(b, sep)
  {
    var pad := Repeat(sep, n);
    assert a + Repeat(sep, n + 1) + b == a + [sep] + (pad + b);
    WordsAtSeparator(a, pad + b, sep);
    LeadingSeparators(n, b, sep);
  }

  /** The position of the first `c` in `s`. */
  function FirstIndex(s: string, c: char): (k: nat)
    requires c in s
    ensures k < |s| && s[k] == c
    ensures forall j :: 0 <= j < k ==> s[j] != c
    decreases |s|
  {
    if s[0] == c then 0
    else
      assert c in s[1..];
      1 + FirstIndex(s[1..], c)
  }

  /** A separator stands somewhere between two characters that are not separators. */
  predicate SeparatedPair(s: string, sep: char)
  {
    exists i, j, k :: 0 <= i < j < k < |s| && s[i] != sep && s[j] == sep && s[k] != sep
  }

  lemma LeadingSeparatorPair(s: string, sep: char)
    requires s != [] && s[0] == sep
    ensures SeparatedPair(s, sep) <==> SeparatedPair(s[1..], sep)
  {
    var b := s[1..];
    if SeparatedPair(s, sep) {
      var i, j, k :| 0 <= i < j < k < |s| && s[i] != sep && s[j] == sep && s[k] != sep;
      assert b[i - 1] != sep && b[j - 1] == sep && b[k - 1] != sep;
    }
    if SeparatedPair(b, sep) {
      var i, j, k :| 0 <= i < j < k < |b| && b[i] != sep && b[j] == sep && b[k] != sep;
      assert s[i + 1] != sep && s[j + 1] == sep && s[k + 1] != sep;
    }
  }

  lemma FirstWordPair(s: string, j: nat, sep: char)
    requires 0 < j < |s| && s[j] == sep && forall m :: 0 <= m < j ==> s[m] != sep
    ensures SeparatedPair(s, sep) <==> exists k :: j < k < |s| && s[k] != sep
  {
    if SeparatedPair(s, sep) {
      var i, j', k :| 0 <= i < j' < k < |s| && s[i] != sep && s[j'] == sep && s[k] != sep;
      assert j <= j';
    }
    if exists k :: j < k < |s| && s[k] != sep {
      var k :| j < k < |s| && s[k] != sep;
      assert s[0] != sep;
    }
  }

  lemma NoSeparatorNoPair(s: string, sep: char)
    requires sep !in s
    ensures !SeparatedPair(s, sep)
  {
  }

  /** A leading separator adds no word. */
  lemma WordsAfterLeadingSeparator(s: string, sep: char)
    requires s != [] && s[0] == sep
    ensures Words(s, sep) == Words(s[1..], sep)
  {
    assert s == [] + [sep] + s[1..];
    WordsAtSeparator([], s[1..], sep);
    WordsWithoutSeparator([], sep);
  }

  /** When the first separator follows a first word, a second word exists exactly when a pair does. */
  lemma TwoWordsAfterFirstWord(s: string, j: nat, sep: char)
    requires 0 < j < |s| && s[j] == sep && forall m :: 0 <= m < j ==> s[m] != sep
    ensures |Words(s, sep)| >= 2 <==> SeparatedPair(s, sep)
  {
    var a, b := s[..j], s[j + 1..];
    assert s == a + [sep] + b;
    assert sep !in a;
    WordsAtSeparator(a, b, sep);
    WordsWithoutSeparator(a, sep);
    NoWordsIff(b, sep);
    FirstWordPair(s, j, sep);
    forall k | j < k < |s| ensures s[k] == b[k - j - 1] { }
  }

  /**
   * There are at least two words exactly when a separator stands between two
   * characters that are not separators.
   */
  lemma {:induction false} TwoWordsIff(s: string, sep: char)
    ensures |Words(s, sep)| >= 2 <==> SeparatedPair(s, sep)
    decreases |s|
  {
    if sep !in s {
      WordsWithoutSeparator(s, sep);
      NoSeparatorNoPair(s, sep);
    } else {
      var j := FirstIndex(s, sep);
      if j == 0 {
        WordsAfterLeadingSeparator(s, sep);
        TwoWordsIff(s[1..], sep);
        LeadingSeparatorPair(s, sep);
      } else {
        TwoWordsAfterFirstWord(s, j, sep);
      }
    }
  }
}
