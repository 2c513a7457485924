/**
 * `HighlightedText.attributedString`: the text is cut at every caret, empty
 * pieces included, and the pieces are appended in order, every odd-numbered
 * one in the highlight colour.
 */
module HighlightedText {
  import opened Strings

  /** One appended piece of the attributed string and whether it takes the highlight colour. */
  datatype Segment = Segment(text: string, highlighted: bool)

  const Caret := '^'

  /** The pieces, coloured alternately, starting with `highlighted` for the first one. */
  function Alternate(parts: seq<string>, highlighted: bool): (runs: seq<Segment>)
    ensures |runs| == |parts|
    decreases |parts|
  {
    if parts == [] then []
    else [Segment(parts[0], highlighted)] + Alternate(parts[1..], !highlighted)
  }

  /** Piece `i` keeps its text and is coloured by the parity of `i`. */
  lemma {:induction false} AlternateIndex(parts: seq<string>, highlighted: bool, i: nat)
    requires i < |parts|
    ensures Alternate(parts, highlighted)[i] == Segment(parts[i], highlighted != (i % 2 != 0))
    decreases i
  {
    if i > 0 {
      AlternateIndex(parts[1..], !highlighted, i - 1);
    }
  }

  /**
   * The loop over `segments.enumerated()`: each segment is appended, in the
   * highlight colour exactly when its index is odd.
   */
  method AttributedString(text: string) returns (runs: seq<Segment>)
    ensures |runs| == Count(text, Caret) + 1
    ensures forall i :: 0 <= i < |runs| ==> runs[i].text == Split(text, Caret)[i]
    ensures forall i :: 0 <= i < |runs| ==> (runs[i].highlighted <==> i % 2 != 0)
    ensures forall i :: 0 <= i < |runs| ==> Caret !in runs[i].text
    ensures runs == Alternate(Split(text, Caret), false)
  {
    var segments := Split(text, Caret);
    runs := [];
    var index := 0;
    while index < |segments|
      invariant 0 <= index <= |segments|
      invariant |runs| == index
      invariant forall i :: 0 <= i < index ==> runs[i] == Segment(segments[i], i % 2 != 0)
    {
      var highlighted := index % 2 != 0;
      runs := runs + [Segment(segments[index], highlighted)];
      index := index + 1;
    }
    AlternatedByParity(segments, runs);
  }

  /** Pieces coloured by the parity of their index are the alternating colouring. */
  lemma AlternatedByParity(parts: seq<string>, runs: seq<Segment>)
    requires |runs| == |parts|
    requires forall i :: 0 <= i < |runs| ==> runs[i] == Segment(parts[i], i % 2 != 0)
    ensures runs == Alternate(parts, false)
  {
    forall i | 0 <= i < |runs| ensures runs[i] == Alternate(parts, false)[i] {
      AlternateIndex(parts, false, i);
    }
  }

  // ---------------------------------------------------------------------------
  // What the attributed string shows
  // ---------------------------------------------------------------------------

  /** The plain text of the attributed string: the pieces one after another. */
  function Texts(runs: seq<Segment>): string
    decreases |runs|
  {
    if runs == [] then [] else runs[0].text + Texts(runs[1..])
  }

  lemma {:induction false} TextsAlternate(parts: seq<string>, highlighted: bool)
    ensures Texts(Alternate(parts, highlighted)) == Concat(parts)
    decreases |parts|
  {
    if parts != [] {
      TextsAlternate(parts[1..], !highlighted);
    }
  }

  /** The text shown is the input with every caret removed. */
  lemma ShownText(text: string)
    ensures Texts(Alternate(Split(text, Caret), false)) == Remove(text, Caret)
  {
    TextsAlternate(Split(text, Caret), false);
    ConcatSplit(text, Caret);
  }

  /** A text without a caret is one piece in the normal colour. */
  lemma NoCaretIsPlain(text: string)
    requires Caret !in text
    ensures Alternate(Split(text, Caret), false) == [Segment(text, false)]
  {
    SplitWithoutSeparator(text, Caret);
  }

  /** Each character shown, paired with whether it is highlighted. */
  function Characters(runs: seq<Segment>): seq<(char, bool)>
    decreases |runs|
  {
    if runs == [] then []
    else Coloured(runs[0].text, runs[0].highlighted) + Characters(runs[1..])
  }

  function Coloured(s: string, highlighted: bool): (r: seq<(char, bool)>)
    ensures |r| == |s|
    decreases |s|
  {
    if s == [] then [] else [(s[0], highlighted)] + Coloured(s[1..], highlighted)
  }

  /**
   * An independent reading of the caret convention, one character at a
   * time: a caret is not shown and switches the highlight on or off, and
   * every other character is shown in the current colour.
   */
  function Toggling(s: string, highlighted: bool): seq<(char, bool)>
    decreases |s|
  {
    if s == [] then []
    else if s[0] == Caret then Toggling(s[1..], !highlighted)
    else [(s[0], highlighted)] + Toggling(s[1..], highlighted)
  }

  lemma {:induction false} CharactersAppend(a: seq<Segment>, b: seq<Segment>)
    ensures Characters(a + b) == Characters(a) + Characters(b)
    decreases |a|
  {
    if a == [] {
      assert a + b == b;
    } else {
      assert (a + b)[0] == a[0];
      assert (a + b)[1..] == a[1..] + b;
      CharactersAppend(a[1..], b);
    }
  }

  lemma {:induction false} AlternateToggling(s: string, highlighted: bool)
    ensures Characters(Alternate(Split(s, Caret), highlighted)) == Toggling(s, highlighted)
    decreases |s|
  {
    if s != [] {
      var rest := Split(s[1..], Caret);
      AlternateToggling(s[1..], if s[0] == Caret then !highlighted else highlighted);
      if s[0] == Caret {
        assert Split(s, Caret) == [[]] + rest;
        assert ([[]] + rest)[1..] == rest;
      } else {
        var parts := [[s[0]] + rest[0]] + rest[1..];
        assert Split(s, Caret) == parts;
        assert parts[1..] == rest[1..];
        var tail := Alternate(rest[1..], !highlighted);
        assert Alternate(rest, highlighted) == [Segment(rest[0], highlighted)] + tail;
        assert Alternate(parts, highlighted) == [Segment([s[0]] + rest[0], highlighted)] + tail;
        CharactersAppend([Segment(rest[0], highlighted)], tail);
        CharactersAppend([Segment([s[0]] + rest[0], highlighted)], tail);
        assert ([s[0]] + rest[0])[1..] == rest[0];
        assert Coloured(rest[0], highlighted) + [] == Coloured(rest[0], highlighted);
      }
    }
  }

  /** The attributed string colours every character as the caret convention says. */
  lemma ColouringAgrees(text: string)
    ensures Characters(Alternate(Split(text, Caret), false)) == Toggling(text, false)
  {
    AlternateToggling(text, false);
  }

  /** The texts of the highlighted pieces, in order. */
  function HighlightedTexts(runs: seq<Segment>): seq<string>
    decreases |runs|
  {
    if runs == [] then []
    else (if runs[0].highlighted then [runs[0].text] else []) + HighlightedTexts(runs[1..])
  }

  /** A caret-free piece before a caret is the first piece. */
  lemma SplitPrepend(a: string, rest: string)
    requires Caret !in a
    ensures Split(a + [Caret] + rest, Caret) == [a] + Split(rest, Caret)
  {
    SplitAtSeparator(a, rest, Caret);
    SplitWithoutSeparator(a, Caret);
  }

  /** Five caret-free pieces joined by four carets come apart again. */
  lemma SplitFive(a: string, b: string, c: string, d: string, e: string)
    requires Caret !in a && Caret !in b && Caret !in c && Caret !in d && Caret !in e
    ensures Split(a + [Caret] + (b + [Caret] + (c + [Caret] + (d + [Caret] + e))), Caret) == [a, b, c, d, e]
  {
    var de := d + [Caret] + e;
    var cde := c + [Caret] + de;
    var bcde := b + [Caret] + cde;
    SplitWithoutSeparator(e, Caret);
    SplitPrepend(d, e);
    SplitPrepend(c, de);
    SplitPrepend(b, cde);
    SplitPrepend(a, bcde);
  }

  /** Of five pieces, the second and the fourth are the highlighted ones. */
  lemma HighlightedOfFive(a: string, b: string, c: string, d: string, e: string)
    ensures HighlightedTexts(Alternate([a, b, c, d, e], false)) == [b, d]
  {
    var p := [a, b, c, d, e];
    var r := Alternate(p, false);
    forall i | 0 <= i < 5 ensures r[i] == Segment(p[i], i % 2 != 0) {
      AlternateIndex(p, false, i);
    }
    assert r == [Segment(a, false), Segment(b, true), Segment(c, false), Segment(d, true), Segment(e, false)];
    assert r[1..] == [Segment(b, true), Segment(c, false), Segment(d, true), Segment(e, false)];
    assert r[1..][1..] == [Segment(c, false), Segment(d, true), Segment(e, false)];
    assert r[1..][1..][1..] == [Segment(d, true), Segment(e, false)];
    assert r[1..][1..][1..][1..] == [Segment(e, false)];
    assert HighlightedTexts(r[1..][1..][1..][1..]) == [];
    assert HighlightedTexts(r[1..][1..][1..]) == [d];
    assert HighlightedTexts(r[1..][1..]) == [d];
    assert HighlightedTexts(r[1..]) == [b, d];
  }

  /** `"Hello, ^world^! Welcome to ^ViewKit^."` highlights exactly "world" and "ViewKit". */
  lemma DocumentationExample(text: string)
    requires text == "Hello, ^world^! Welcome to ^ViewKit^."
    ensures Split(text, Caret) == ["Hello, ", "world", "! Welcome to ", "ViewKit", "."]
    ensures HighlightedTexts(Alternate(Split(text, Caret), false)) == ["world", "ViewKit"]
  {
    var a, b, c, d, e := "Hello, ", "world", "! Welcome to ", "ViewKit", ".";
    assert text == a + [Caret] + (b + [Caret] + (c + [Caret] + (d + [Caret] + e)));
    SplitFive(a, b, c, d, e);
    HighlightedOfFive(a, b, c, d, e);
  }
}
