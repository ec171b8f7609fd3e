/**
 * The two string functions of the popup: the tokeniser that turns the
 * textarea into a word list (`split(/[\n\s]+/)`, `trim`, drop the empty
 * pieces) and the split of a status message at `(`.
 */
module Popup {
  import opened Wrappers
  import opened Text
  import opened Content

  // ---------------------------------------------------------------------------
  // The tokeniser

  /** The longest prefix of `s` holding no white space. */
  function LeadingWord(s: string): (w: string)
    ensures |w| <= |s| && w == s[..|w|] && NoSpace(w)
    ensures |w| < |s| ==> IsSpace(s[|w|])
  {
    if s == [] || IsSpace(s[0]) then []
    else [s[0]] + LeadingWord(s[1..])
  }

  /** `s` without its leading run of white space. */
  function DropLeadingSpace(s: string): (r: string)
    ensures |r| <= |s| && r == s[|s| - |r|..]
    ensures Blank(s[..|s| - |r|])
    ensures r != [] ==> !IsSpace(r[0])
  {
    if s != [] && IsSpace(s[0]) then DropLeadingSpace(s[1..]) else s
  }

  /**
   * `s.split(/[\n\s]+/)`: the pieces between maximal runs of white space. A
   * run at either end leaves an empty piece there, and the empty string
   * gives one empty piece.
   */
  function SplitOnSpace(s: string): (pieces: seq<string>)
    ensures |pieces| >= 1
    ensures |pieces| == 1 <==> NoSpace(s)
    decreases |s|
  {
    var w := LeadingWord(s);
    assert NoSpace(s) ==> w == s by {
      if NoSpace(s) { LeadingWholeWord(s, ""); assert s + "" == s; }
    }
    if |w| == |s| then [w]
    else [w] + SplitOnSpace(DropLeadingSpace(s[|w|..]))
  }

  /** `s.trim()`: `s` without leading and trailing white space. */
  function Trim(s: string): (r: string)
    ensures exists i :: TrimmedAt(s, r, i)
    ensures r != [] ==> !IsSpace(r[0]) && !IsSpace(r[|r| - 1])
  {
    var front := DropLeadingSpace(s);
    var r := TrimEnd(front);
    TrimmedBlock(s, front, r);
    r
  }

  /**
   * A suffix of `s` after a run of white space, cut before a run of white
   * space of its own, is a block with only white space around it.
   */
  lemma TrimmedBlock(s: string, front: string, r: string)
    requires |front| <= |s| && front == s[|s| - |front|..]
    requires Blank(s[..|s| - |front|])
    requires front != [] ==> !IsSpace(front[0])
    requires |r| <= |front| && r == front[..|r|]
    requires Blank(front[|r|..])
    ensures TrimmedAt(s, r, |s| - |front|)
    ensures r != [] ==> !IsSpace(r[0])
  {
    var k := |s| - |front|;
    assert s[k..k + |r|] == r by {
      assert front == s[k..] && r == front[..|r|];
      assert s[k..][..|r|] == s[k..k + |r|];
    }
    assert s[k + |r|..] == front[|r|..];
    if r != [] {
      assert r[0] == front[0];
    }
  }

  /** `r` is the block of `s` at position `i`, and everything of `s` around it is white space. */
  ghost predicate TrimmedAt(s: string, r: string, i: int)
  {
    0 <= i && i + |r| <= |s| && s[i..i + |r|] == r &&
    Blank(s[..i]) && Blank(s[i + |r|..])
  }

  /** `s` without its trailing run of white space. */
  function TrimEnd(s: string): (r: string)
    ensures |r| <= |s| && r == s[..|r|]
    ensures forall i :: |r| <= i < |s| ==> IsSpace(s[i])
    ensures r != [] ==> !IsSpace(r[|r| - 1])
  {
    if s != [] && IsSpace(s[|s| - 1]) then TrimEnd(s[..|s| - 1]) else s
  }

  /** `.map(word => word.trim())`. */
  function TrimAll(pieces: seq<string>): (r: seq<string>)
    ensures |r| == |pieces|
    ensures forall k :: 0 <= k < |r| ==> r[k] == Trim(pieces[k])
  {
    if pieces == [] then []
    else
      var rest := TrimAll(pieces[1..]);
      assert forall k :: 1 <= k < |pieces| ==> pieces[k] == pieces[1..][k - 1];
      [Trim(pieces[0])] + rest
  }

  /** `.filter(word => word !== '')`. */
  function DropEmpty(pieces: seq<string>): (r: seq<string>)
    ensures |r| <= |pieces|
    ensures forall k :: 0 <= k < |r| ==> r[k] != "" && r[k] in pieces
    ensures forall k :: 0 <= k < |pieces| && pieces[k] != "" ==> pieces[k] in r
    ensures forall p :: p != "" ==> multiset(r)[p] == multiset(pieces)[p]
  {
    if pieces == [] then []
    else
      assert pieces == [pieces[0]] + pieces[1..];
      if pieces[0] == "" then DropEmpty(pieces[1..])
      else [pieces[0]] + DropEmpty(pieces[1..])
  }

  /** The word list the popup builds from the textarea. */
  function Tokenise(text: string): (tokens: seq<string>)
    ensures WellFormedWords(tokens)
  {
    TrimIsNoOpOnPieces(text);
    SplitPiecesHaveNoSpace(text);
    DropEmptyWellFormed(SplitOnSpace(text));
    DropEmpty(TrimAll(SplitOnSpace(text)))
  }

  /** The pieces glued together in order. */
  function Concat(pieces: seq<string>): string
  {
    if pieces == [] then "" else pieces[0] + Concat(pieces[1..])
  }

  /** The words joined by single spaces. */
  function JoinWithSpaces(words: seq<string>): string
  {
    if words == [] then ""
    else if |words| == 1 then words[0]
    else words[0] + " " + JoinWithSpaces(words[1..])
  }

  /** `s` with every white-space character deleted. */
  function RemoveSpace(s: string): (r: string)
  {
    if s == [] then ""
    else if IsSpace(s[0]) then RemoveSpace(s[1..])
    else [s[0]] + RemoveSpace(s[1..])
  }

  /** A word list as the tokeniser produces them: no empty word, no white space in a word. */
  ghost predicate WellFormedWords(words: seq<string>)
  {
    forall k :: 0 <= k < |words| ==> words[k] != "" && NoSpace(words[k])
  }

  /** No piece of the split holds white space. */
  lemma {:induction false} SplitPiecesHaveNoSpace(s: string)
    ensures forall k :: 0 <= k < |SplitOnSpace(s)| ==> NoSpace(SplitOnSpace(s)[k])
    decreases |s|
  {
    var w := LeadingWord(s);
    if |w| < |s| {
      SplitPiecesHaveNoSpace(DropLeadingSpace(s[|w|..]));
    }
  }

  /** `trim` leaves a string without white space as it is. */
  lemma TrimKeepsNoSpace(s: string)
    requires NoSpace(s)
    ensures Trim(s) == s
  {
    assert DropLeadingSpace(s) == s;
    assert TrimEnd(s) == s;
  }

  /** Trimming every piece of a list without white space changes nothing. */
  lemma TrimAllKeepsNoSpace(pieces: seq<string>)
    requires forall k :: 0 <= k < |pieces| ==> NoSpace(pieces[k])
    ensures TrimAll(pieces) == pieces
  {
    forall k | 0 <= k < |pieces| ensures TrimAll(pieces)[k] == pieces[k] {
      TrimKeepsNoSpace(pieces[k]);
    }
  }

  /** The `trim` on each piece of the split is a no-op. */
  lemma TrimIsNoOpOnPieces(s: string)
    ensures TrimAll(SplitOnSpace(s)) == SplitOnSpace(s)
  {
    SplitPiecesHaveNoSpace(s);
    TrimAllKeepsNoSpace(SplitOnSpace(s));
  }

  /** Dropping the empty pieces of a list without white space leaves well-formed words. */
  lemma DropEmptyWellFormed(pieces: seq<string>)
    requires forall k :: 0 <= k < |pieces| ==> NoSpace(pieces[k])
    ensures WellFormedWords(DropEmpty(pieces))
  {
    var tokens := DropEmpty(pieces);
    forall k | 0 <= k < |tokens| ensures tokens[k] != "" && NoSpace(tokens[k]) {
      var j :| 0 <= j < |pieces| && pieces[j] == tokens[k];
    }
  }

  /** Dropping the empty pieces does not change what the pieces glue to. */
  lemma {:induction false} DropEmptyConcat(pieces: seq<string>)
    ensures Concat(DropEmpty(pieces)) == Concat(pieces)
  {
    if pieces != [] {
      DropEmptyConcat(pieces[1..]);
    }
  }

  /** Removing white space distributes over concatenation. */
  lemma {:induction false} RemoveSpaceAppend(a: string, b: string)
    ensures RemoveSpace(a + b) == RemoveSpace(a) + RemoveSpace(b)
    decreases |a|
  {
    if a == [] {
      assert a + b == b;
    } else {
      assert (a + b)[1..] == a[1..] + b;
      RemoveSpaceAppend(a[1..], b);
    }
  }

  /** A string without white space loses nothing to RemoveSpace; one made only of white space loses everything. */
  lemma {:induction false} RemoveSpaceExtremes(s: string)
    ensures NoSpace(s) ==> RemoveSpace(s) == s
    ensures Blank(s) ==> RemoveSpace(s) == ""
  {
    if s != [] {
      RemoveSpaceExtremes(s[1..]);
    }
  }

  /** Skipping leading white space does not change what RemoveSpace keeps. */
  lemma {:induction false} RemoveSpaceSkipsLeading(s: string)
    ensures RemoveSpace(DropLeadingSpace(s)) == RemoveSpace(s)
  {
    if s != [] && IsSpace(s[0]) {
      RemoveSpaceSkipsLeading(s[1..]);
    }
  }

  /** The split pieces glued together are the input without its white space. */
  lemma {:induction false} SplitConcat(s: string)
    ensures Concat(SplitOnSpace(s)) == RemoveSpace(s)
    decreases |s|
  {
    var w := LeadingWord(s);
    RemoveSpaceExtremes(w);
    if |w| < |s| {
      var gap := s[|w|..];
      assert s == w + gap;
      RemoveSpaceAppend(w, gap);
      RemoveSpaceSkipsLeading(gap);
      SplitConcat(DropLeadingSpace(gap));
      assert SplitOnSpace(s) == [w] + SplitOnSpace(DropLeadingSpace(gap));
      assert Concat(SplitOnSpace(s)) == w + Concat(SplitOnSpace(DropLeadingSpace(gap)));
    } else {
      assert s == w;
      assert Concat([w]) == w + Concat([]);
    }
  }

  /** Gluing the tokens in order gives the input with its white space deleted. */
  lemma TokensConcat(text: string)
    ensures Concat(Tokenise(text)) == RemoveSpace(text)
  {
    TrimIsNoOpOnPieces(text);
    DropEmptyConcat(SplitOnSpace(text));
    SplitConcat(text);
  }

  /** Text made only of white space (or nothing) gives no words. */
  lemma BlankTextHasNoTokens(text: string)
    requires Blank(text)
    ensures Tokenise(text) == []
  {
    TokensAfterRun(text);
    if text != [] {
      assert DropLeadingSpace(text) == [] by {
        DropBlankPrefix(text, []);
        assert text + [] == text;
      }
      assert SplitAfterRun(text) == [""];
      assert DropEmpty([""]) == DropEmpty([]) == [];
    }
  }

  /** A word without white space splits into itself. */
  lemma SplitSingleWord(w: string)
    requires NoSpace(w)
    ensures SplitOnSpace(w) == [w]
  {
    LeadingWholeWord(w, "");
    assert w + "" == w;
  }

  /** The leading word of `w + rest` is `w` when `w` holds no white space and `rest` is empty or starts with it. */
  lemma {:induction false} LeadingWholeWord(w: string, rest: string)
    requires NoSpace(w)
    requires rest != [] ==> IsSpace(rest[0])
    ensures LeadingWord(w + rest) == w
    decreases |w|
  {
    if w == [] {
      assert w + rest == rest;
    } else {
      assert (w + rest)[1..] == w[1..] + rest;
      LeadingWholeWord(w[1..], rest);
    }
  }

  /** Skipping the leading white space of a blank run followed by a word (or nothing) lands on that word. */
  lemma {:induction false} DropBlankPrefix(gap: string, tail: string)
    requires Blank(gap)
    requires tail != [] ==> !IsSpace(tail[0])
    ensures DropLeadingSpace(gap + tail) == tail
    decreases |gap|
  {
    if gap == [] {
      assert gap + tail == tail;
    } else {
      assert (gap + tail)[1..] == gap[1..] + tail;
      DropBlankPrefix(gap[1..], tail);
    }
  }

  /**
   * A word, a non-empty run of white space and a text that is empty or
   * starts with no white space split after that word: the whole run is one
   * separator, whatever white-space characters (`\n`, tabs, spaces) it holds.
   */
  lemma SplitWordThenGap(w: string, gap: string, tail: string)
    requires NoSpace(w)
    requires gap != [] && Blank(gap)
    requires tail != [] ==> !IsSpace(tail[0])
    ensures SplitOnSpace(w + gap + tail) == [w] + SplitOnSpace(tail)
  {
    var s := w + gap + tail;
    assert s == w + (gap + tail);
    LeadingWholeWord(w, gap + tail);
    assert s[|w|..] == gap + tail;
    DropBlankPrefix(gap, tail);
  }

  /** A leading run of white space leaves an empty first piece and is otherwise skipped. */
  lemma SplitLeadingGap(gap: string, tail: string)
    requires gap != [] && Blank(gap)
    requires tail != [] ==> !IsSpace(tail[0])
    ensures SplitOnSpace(gap + tail) == [""] + SplitOnSpace(tail)
  {
    var s := gap + tail;
    assert LeadingWord(s) == [];
    assert s[0..] == s;
    DropBlankPrefix(gap, tail);
  }

  /** Each word followed by its run of white space: `words[0] + gaps[0] + words[1] + gaps[1] + …`. */
  function Spaced(words: seq<string>, gaps: seq<string>): string
    requires |gaps| == |words|
  {
    if words == [] then "" else words[0] + gaps[0] + Spaced(words[1..], gaps[1..])
  }

  /** Runs of white space between words: all blank, and all but the last non-empty. */
  ghost predicate Separators(gaps: seq<string>)
  {
    (forall k :: 0 <= k < |gaps| ==> Blank(gaps[k])) &&
    (forall k :: 0 <= k < |gaps| - 1 ==> gaps[k] != "")
  }

  /** The words and runs after the first are spaced words too, and the first run is blank. */
  lemma SpacedTail(words: seq<string>, gaps: seq<string>)
    requires words != [] && WellFormedWords(words)
    requires |gaps| == |words| && Separators(gaps)
    ensures WellFormedWords(words[1..]) && Separators(gaps[1..])
    ensures Blank(gaps[0]) && (|words| > 1 ==> gaps[0] != "")
  {
    forall k | 0 <= k < |words[1..]| ensures words[1..][k] != "" && NoSpace(words[1..][k]) {
      assert words[1..][k] == words[k + 1];
    }
    forall k | 0 <= k < |gaps[1..]| ensures Blank(gaps[1..][k]) {
      assert gaps[1..][k] == gaps[k + 1];
    }
    forall k | 0 <= k < |gaps[1..]| - 1 ensures gaps[1..][k] != "" {
      assert gaps[1..][k] == gaps[k + 1];
    }
  }

  /** Dropping the empty pieces keeps the order: it distributes over concatenation. */
  lemma {:induction false} DropEmptyAppend(a: seq<string>, b: seq<string>)
    ensures DropEmpty(a + b) == DropEmpty(a) + DropEmpty(b)
    decreases |a|
  {
    if a == [] {
      assert a + b == b;
    } else {
      assert (a + b)[0] == a[0];
      assert (a + b)[1..] == a[1..] + b;
      DropEmptyAppend(a[1..], b);
    }
  }

  /** With the `trim` a no-op, the tokens are the non-empty pieces of the split. */
  lemma TokensOfSplit(text: string)
    ensures Tokenise(text) == DropEmpty(SplitOnSpace(text))
  {
    TrimIsNoOpOnPieces(text);
  }

  /** A word, then white space or the end: the word is the first piece, and the pieces after the run follow. */
  lemma SplitAfterWord(w: string, rest: string)
    requires NoSpace(w)
    requires rest != [] ==> IsSpace(rest[0])
    ensures SplitOnSpace(w + rest) == [w] + SplitAfterRun(rest)
  {
    if rest == [] {
      assert w + rest == w;
      SplitSingleWord(w);
    } else {
      LeadingWholeWord(w, rest);
      assert (w + rest)[|w|..] == rest;
    }
  }

  /** The pieces after a leading run of white space; nothing for the empty string. */
  function SplitAfterRun(rest: string): seq<string>
  {
    if rest == [] then [] else SplitOnSpace(DropLeadingSpace(rest))
  }

  /** Text starting with white space gives one empty piece and then the pieces after the run. */
  lemma SplitOfRun(rest: string)
    requires rest != [] && IsSpace(rest[0])
    ensures SplitOnSpace(rest) == [""] + SplitAfterRun(rest)
  {
    assert LeadingWord(rest) == [];
    assert rest[0..] == rest;
  }

  /** The tokens of white space (or nothing) followed by `rest` are the non-empty pieces after the run. */
  lemma TokensAfterRun(rest: string)
    requires rest != [] ==> IsSpace(rest[0])
    ensures Tokenise(rest) == DropEmpty(SplitAfterRun(rest))
  {
    TokensOfSplit(rest);
    if rest == [] {
      assert SplitOnSpace(rest) == [""];
      assert DropEmpty([""]) == DropEmpty([]) == [];
    } else {
      SplitOfRun(rest);
      var after := SplitAfterRun(rest);
      assert ([""] + after)[1..] == after;
      assert DropEmpty([""] + after) == DropEmpty(after);
    }
  }

  /** A run of white space (or nothing) before a word changes only the leading empty piece. */
  lemma SplitAfterLead(lead: string, x: string)
    requires Blank(lead)
    requires x != [] && !IsSpace(x[0])
    ensures DropEmpty(SplitOnSpace(lead + x)) == DropEmpty(SplitOnSpace(x))
  {
    if lead == "" {
      assert lead + x == x;
    } else {
      SplitLeadingGap(lead, x);
    }
  }

  /**
   * White space (or nothing), a word, and then white space or the end:
   * the word is the first token, and the tokens of the rest follow it.
   */
  lemma TokeniseCons(lead: string, w: string, rest: string)
    requires Blank(lead) && w != "" && NoSpace(w)
    requires rest != [] ==> IsSpace(rest[0])
    ensures Tokenise(lead + w + rest) == [w] + Tokenise(rest)
  {
    assert lead + w + rest == lead + (w + rest);
    SplitAfterLead(lead, w + rest);
    SplitAfterWord(w, rest);
    TokensOfSplit(lead + (w + rest));
    TokensAfterRun(rest);
    DropEmptyAppend([w], SplitAfterRun(rest));
  }

  /**
   * Words separated by runs of white space, with white space (or nothing)
   * before the first and after the last, tokenise back to the words: one
   * word per line gives one token per word, as one word per space does.
   */
  lemma {:induction false} TokeniseJoinRoundTrip(lead: string, words: seq<string>, gaps: seq<string>)
    requires Blank(lead) && WellFormedWords(words)
    requires |gaps| == |words| && Separators(gaps)
    ensures Tokenise(lead + Spaced(words, gaps)) == words
    decreases |words|
  {
    if words == [] {
      assert lead + Spaced(words, gaps) == lead;
      BlankTextHasNoTokens(lead);
    } else {
      assert words == [words[0]] + words[1..];
      SpacedTail(words, gaps);
      var rest := gaps[0] + Spaced(words[1..], gaps[1..]);
      assert lead + Spaced(words, gaps) == lead + words[0] + rest;
      assert rest != [] ==> IsSpace(rest[0]) by {
        if |words| == 1 {
          assert rest == gaps[0];
        } else {
          assert rest[0] == gaps[0][0];
        }
      }
      TokeniseCons(lead, words[0], rest);
      TokeniseJoinRoundTrip(gaps[0], words[1..], gaps[1..]);
    }
  }

  /** A textarea with one word per line and a trailing newline gives one token per line. */
  lemma OneWordPerLine()
    ensures Tokenise("Wireless\nMouse\n") == ["Wireless", "Mouse"]
  {
    var words, gaps := ["Wireless", "Mouse"], ["\n", "\n"];
    assert Spaced(words[1..], gaps[1..]) == "Mouse\n";
    assert "" + Spaced(words, gaps) == "Wireless\nMouse\n";
    TokeniseJoinRoundTrip("", words, gaps);
  }

  /** Words joined by single spaces are spaced by one-space runs, with nothing after the last word. */
  lemma {:induction false} JoinWithSpacesIsSpaced(words: seq<string>)
    ensures JoinWithSpaces(words) == Spaced(words, SingleSpaces(|words|))
  {
    if |words| == 1 {
      assert Spaced(words, [""]) == words[0] + "" + "";
    } else if |words| > 1 {
      JoinWithSpacesIsSpaced(words[1..]);
      assert SingleSpaces(|words|)[1..] == SingleSpaces(|words| - 1);
    }
  }

  /** `n` gaps of one space each, except the last, which is empty. */
  function SingleSpaces(n: nat): (gaps: seq<string>)
    ensures |gaps| == n && Separators(gaps)
  {
    seq(n, k => if k < n - 1 then " " else "")
  }

  /** The tokeniser's own output survives a join by single spaces and a re-tokenise. */
  lemma RetokeniseIsStable(text: string)
    ensures Tokenise(JoinWithSpaces(Tokenise(text))) == Tokenise(text)
  {
    var tokens := Tokenise(text);
    JoinWithSpacesIsSpaced(tokens);
    TokeniseJoinRoundTrip("", tokens, SingleSpaces(|tokens|));
    assert "" + Spaced(tokens, SingleSpaces(|tokens|)) == JoinWithSpaces(tokens);
  }

  // ---------------------------------------------------------------------------
  // The status split

  /** The number of occurrences of `c` in `s`. */
  function Occurrences(s: string, c: char): (n: nat)
    ensures n > 0 <==> c in s
  {
    if s == [] then 0 else (if s[0] == c then 1 else 0) + Occurrences(s[1..], c)
  }

  /** The position of the first `c` in `s`, or `|s|` when `s` holds none. */
  function IndexOf(s: string, c: char): (i: nat)
    ensures i <= |s| && c !in s[..i]
    ensures i < |s| <==> c in s
    ensures i < |s| ==> s[i] == c
  {
    if s == [] || s[0] == c then 0
    else
      var j := IndexOf(s[1..], c);
      assert s[..j + 1] == [s[0]] + s[1..][..j];
      j + 1
  }

  /** Past the first `c`, one occurrence fewer remains. */
  lemma {:induction false} OccurrencesAfterFirst(s: string, c: char)
    requires c in s
    ensures Occurrences(s, c) == 1 + Occurrences(s[IndexOf(s, c) + 1..], c)
  {
    if s[0] != c {
      var j := IndexOf(s[1..], c);
      OccurrencesAfterFirst(s[1..], c);
      assert s[1..][j + 1..] == s[j + 2..];
    }
  }

  /**
   * `s.split(c)` for a one-character separator: the text before the first
   * `c`, then the split of what follows it; the whole text when there is no
   * `c`.
   */
  function SplitOnChar(s: string, c: char): (pieces: seq<string>)
    ensures |pieces| == Occurrences(s, c) + 1
    ensures forall k :: 0 <= k < |pieces| ==> c !in pieces[k]
    decreases |s|
  {
    var i := IndexOf(s, c);
    if i == |s| then
      assert s[..i] == s;
      [s]
    else
      OccurrencesAfterFirst(s, c);
      [s[..i]] + SplitOnChar(s[i + 1..], c)
  }

  /**
   * The first piece of `s.split(c)` runs to the first `c`, and the second
   * from just after it to the next `c` or the end of `s`.
   */
  lemma FirstTwoPieces(s: string, c: char)
    ensures SplitOnChar(s, c)[0] == s[..IndexOf(s, c)]
    ensures c in s ==>
      var shown := SplitOnChar(s, c)[0] + [c] + SplitOnChar(s, c)[1];
      shown <= s && (|shown| == |s| || s[|shown|] == c)
  {
    PiecesByIndex(s, c);
    if c in s {
      ShownByIndex(s, c);
    }
  }

  /** The first two pieces in terms of the positions of the first two `c`. */
  lemma PiecesByIndex(s: string, c: char)
    ensures SplitOnChar(s, c)[0] == s[..IndexOf(s, c)]
    ensures IndexOf(s, c) < |s| ==>
      SplitOnChar(s, c)[1] == s[IndexOf(s, c) + 1..][..IndexOf(s[IndexOf(s, c) + 1..], c)]
  {
    if IndexOf(s, c) == |s| {
      assert s[..|s|] == s;
    }
  }

  /** The text up to the second `c` (or the end) is a prefix of `s` that ends `s` or is followed by `c`. */
  lemma ShownByIndex(s: string, c: char)
    requires c in s
    ensures var i := IndexOf(s, c);
      var after := s[i + 1..];
      var shown := s[..i] + [c] + after[..IndexOf(after, c)];
      shown <= s && (|shown| == |s| || s[|shown|] == c)
  {
    var i := IndexOf(s, c);
    var after := s[i + 1..];
    var j := IndexOf(after, c);
    SliceAround(s, i, j);
    assert j < |after| ==> s[i + 1 + j] == after[j];
  }

  /** The text before position `i`, the character at `i` and the next `j` characters make up `s[..i + 1 + j]`. */
  lemma SliceAround(s: string, i: nat, j: nat)
    requires i < |s| && i + 1 + j <= |s|
    ensures s[..i] + [s[i]] + s[i + 1..][..j] == s[..i + 1 + j]
  {
    var shown := s[..i] + [s[i]] + s[i + 1..][..j];
    forall k | 0 <= k < |shown| ensures shown[k] == s[k] {
      if k > i {
        assert shown[k] == s[i + 1..][k - i - 1];
      }
    }
  }

  /** The pieces joined by `c`. */
  function JoinWith(pieces: seq<string>, c: char): string
    requires pieces != []
  {
    if |pieces| == 1 then pieces[0] else pieces[0] + [c] + JoinWith(pieces[1..], c)
  }

  /** Splitting at `c` and joining with `c` gives the string back. */
  lemma {:induction false} SplitOnCharJoin(s: string, c: char)
    ensures JoinWith(SplitOnChar(s, c), c) == s
    decreases |s|
  {
    var i := IndexOf(s, c);
    if i == |s| {
      assert s[..i] == s;
    } else {
      var rest := SplitOnChar(s[i + 1..], c);
      SplitOnCharJoin(s[i + 1..], c);
      assert ([s[..i]] + rest)[1..] == rest;
      assert s == s[..i] + [c] + s[i + 1..];
    }
  }

  /** What `showStatus` puts in the status box. */
  datatype StatusView =
    | Emphasised(mainMessage: string, countPart: Option<string>)  // innerHTML with the count in bold
    | PlainText(text: string)                                    // textContent

  /**
   * `showStatus(message)`: a message that includes "items shown" is split at
   * `(`, and its first two pieces are shown; `countPart` is `undefined` when
   * there is no `(`.
   */
  function ShowStatus(message: string): (view: StatusView)
    ensures view.Emphasised? <==> IsSubstring("items shown", message)
    ensures view.PlainText? ==> view.text == message
    ensures view.Emphasised? ==> '(' !in view.mainMessage && view.mainMessage <= message
    ensures view.Emphasised? && '(' !in message ==> view.mainMessage == message
    ensures view.Emphasised? && '(' in message ==>
      |view.mainMessage| < |message| && message[|view.mainMessage|] == '('
    ensures view.Emphasised? ==> (view.countPart.Some? <==> '(' in message)
    ensures view.Emphasised? && view.countPart.Some? ==>
      var shown := view.mainMessage + "(" + view.countPart.value;
      '(' !in view.countPart.value && shown <= message &&
      (|shown| == |message| || message[|shown|] == '(')
  {
    if Includes(message, "items shown") then
      var pieces := SplitOnChar(message, '(');
      FirstTwoPieces(message, '(');
      if |pieces| > 1 then Emphasised(pieces[0], Some(pieces[1]))
      else Emphasised(pieces[0], None)
    else PlainText(message)
  }

  /**
   * For a message that includes "items shown" and holds exactly one `(`,
   * the main part, `(` and the count part give the message back.
   */
  lemma ShowStatusRoundTrip(message: string)
    requires Includes(message, "items shown") && Occurrences(message, '(') == 1
    ensures ShowStatus(message).Emphasised? && ShowStatus(message).countPart.Some?
    ensures ShowStatus(message).mainMessage + "(" + ShowStatus(message).countPart.value == message
  {
    SplitOnCharJoin(message, '(');
    var pieces := SplitOnChar(message, '(');
    assert JoinWith(pieces[1..], '(') == pieces[1];
  }

  // ---------------------------------------------------------------------------
  // The config the popup sends

  /**
   * The `config` of the popup's `applyFilter` message. The popup sends the
   * word list under the name `words`, which the content script never reads,
   * and sends neither `removeWords` nor `keepWords`; `retry` selects the
   * selector list of the send that follows a re-injection of the script.
   */
  function PopupConfig(retry: bool): (config: Config)
    ensures config.removeWords.None? && config.keepWords.None?
    ensures config.selector == ListingSelector
    ensures config.removeSelectors.Some? && NonResultListing in config.removeSelectors.value
  {
    Config(ListingSelector, None, None,
           Some(if retry then [NonResultListing] else [AdHolder, NonResultListing]))
  }

  const AdHolder: string := ".AdHolder.s-flex-full-width"
  const NonResultListing: string := "[data-asin]:not([data-component-type=\"s-search-result\"])"

  /**
   * With the popup's config, filtering raises the TypeError on the missing
   * `removeWords` as soon as one listing is not preserved, and otherwise
   * runs only the remove-selector pass.
   */
  lemma PopupConfigFails(es: seq<Element>, related: Option<nat>, retry: bool)
    ensures HasWordCandidate(es, related, ListingSelector) ==>
      Filter(es, related, PopupConfig(retry)) == Failure(RemoveWordsMissing)
    ensures !HasWordCandidate(es, related, ListingSelector) ==>
      Filter(es, related, PopupConfig(retry)) == Success(RemovePass(es, related, PopupConfig(retry).removeSelectors))
  {
  }
}
