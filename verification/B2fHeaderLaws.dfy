/** What sanitising a header value means: the value's words, in order, joined by single spaces. */
module B2fHeaderLaws {
  import opened PyText
  import opened B2f

  predicate Word(w: string)
  {
    w != [] && forall i :: 0 <= i < |w| ==> !IsSpace(w[i])
  }

  /** The maximal runs of non-whitespace characters: Python's `s.split()`. */
  function Words(s: string): (r: seq<string>)
    ensures forall i :: 0 <= i < |r| ==> Word(r[i])
    ensures s != [] && !IsSpace(s[0]) ==> r != []
  {
    if s == [] then []
    else if IsSpace(s[0]) then Words(s[1..])
    else if |s| == 1 || IsSpace(s[1]) then [[s[0]]] + Words(s[1..])
    else var more := Words(s[1..]); [[s[0]] + more[0]] + more[1..]
  }

  function JoinWords(words: seq<string>): (r: string)
  {
    if words == [] then []
    else if |words| == 1 then words[0]
    else words[0] + " " + JoinWords(words[1..])
  }

  lemma {:induction false} RStripCons(c: char, s: string)
    ensures RStrip([c] + s) == if RStrip(s) == [] && IsSpace(c) then [] else [c] + RStrip(s)
    decreases |s|
  {
    var t := [c] + s;
    if s == [] {
      assert t[..0] == [];
    } else if IsSpace(s[|s| - 1]) {
      var init := s[..|s| - 1];
      assert t[..|t| - 1] == [c] + init;
      RStripCons(c, init);
    } else {
    }
  }

  lemma {:induction false} CollapseKeepsFirst(s: string)
    ensures s == [] <==> CollapseSpace(s) == []
    ensures s != [] ==> (IsSpace(CollapseSpace(s)[0]) <==> IsSpace(s[0]))
  {
    if s != [] {
      CollapseKeepsFirst(s[1..]);
    }
  }

  /** With the newlines gone or not, collapsing sees the same whitespace. */
  lemma {:induction false} NewlinesAreSpace(s: string)
    ensures |SpacesForNewlines(s)| == |s|
    ensures s != [] ==> (IsSpace(SpacesForNewlines(s)[0]) <==> IsSpace(s[0]))
    ensures CollapseSpace(SpacesForNewlines(s)) == CollapseSpace(s)
  {
    if s != [] {
      NewlinesAreSpace(s[1..]);
      assert SpacesForNewlines(s)[1..] == SpacesForNewlines(s[1..]);
    }
  }

  lemma WordsContinue(s: string)
    requires |s| > 1 && !IsSpace(s[0]) && !IsSpace(s[1])
    ensures JoinWords(Words(s)) == [s[0]] + JoinWords(Words(s[1..]))
  {
    var more := Words(s[1..]);
    assert Words(s) == [[s[0]] + more[0]] + more[1..];
    JoinLonger(s[0], more);
  }

  lemma JoinLonger(c: char, words: seq<string>)
    requires words != []
    ensures JoinWords([[c] + words[0]] + words[1..]) == [c] + JoinWords(words)
  {
    var longer := [[c] + words[0]] + words[1..];
    assert longer[1..] == words[1..];
    if |words| > 1 {
      var tail := " " + JoinWords(words[1..]);
      assert [c] + words[0] + tail == [c] + (words[0] + tail);
      assert [c] + words[0] + " " + JoinWords(words[1..]) == [c] + words[0] + tail;
      assert words[0] + " " + JoinWords(words[1..]) == words[0] + tail;
    }
  }

  /** The joined words, after one space if the text starts with whitespace. */
  function Spaced(s: string): string
  {
    if s != [] && IsSpace(s[0]) && Words(s) != [] then " " + JoinWords(Words(s)) else JoinWords(Words(s))
  }

  lemma SpacedWord(s: string)
    requires |s| > 1 && !IsSpace(s[0])
    ensures Spaced(s) == [s[0]] + Spaced(s[1..])
  {
    hide IsSpace;
    if IsSpace(s[1]) {
      assert Words(s)[1..] == Words(s[1..]);
      assert JoinWords([]) == "";
    } else {
      WordsContinue(s);
    }
  }

  lemma JoinedNotEmpty(words: seq<string>)
    requires words != [] && words[0] != []
    ensures JoinWords(words) != []
  {
  }

  lemma RStripOneChar(c: char)
    ensures RStrip([c]) == if IsSpace(c) then [] else [c]
  {
    RStripCons(c, []);
    assert [c] + [] == [c];
  }

  /** Collapsing and trimming the right end leaves the spaced words. */
  lemma {:induction false} CollapseJoins(s: string)
    ensures RStrip(CollapseSpace(s)) == Spaced(s)
    decreases |s|
  {
    hide IsSpace, RStrip;
    SpaceIsSpace();
    if s == [] {
      assert Spaced("") == "" == RStrip("");
    } else if |s| == 1 {
      assert CollapseSpace(s) == if IsSpace(s[0]) then " " else [s[0]];
      RStripOneChar(CollapseSpace(s)[0]);
      assert Words(s) == if IsSpace(s[0]) then [] else [[s[0]]];
    } else {
      CollapseJoins(s[1..]);
      CollapseStep(s);
    }
  }

  lemma {:induction false} CollapseStep(s: string)
    requires |s| > 1 && RStrip(CollapseSpace(s[1..])) == Spaced(s[1..])
    ensures RStrip(CollapseSpace(s)) == Spaced(s)
  {
    hide IsSpace, RStrip;
    SpaceIsSpace();
    var t := s[1..];
    if !IsSpace(s[0]) {
      RStripCons(s[0], CollapseSpace(t));
      SpacedWord(s);
    } else if IsSpace(s[1]) {
      assert t[0] == s[1];
    } else {
      assert t[0] == s[1];
      RStripCons(' ', CollapseSpace(t));
      assert Word(Words(t)[0]);
      JoinedNotEmpty(Words(t));
    }
  }

  lemma SpaceIsSpace()
    ensures IsSpace(' ')
  {
  }

  lemma {:induction false} CollapseDropsFirst(s: string)
    requires s != [] && IsSpace(s[0])
    ensures LStrip(CollapseSpace(s)) == LStrip(CollapseSpace(s[1..]))
  {
    hide IsSpace;
    SpaceIsSpace();
    if |s| > 1 && IsSpace(s[1]) {
    } else {
      assert ([' '] + CollapseSpace(s[1..]))[1..] == CollapseSpace(s[1..]);
    }
  }

  lemma {:induction false} CollapseThenStrip(s: string)
    ensures Strip(CollapseSpace(s)) == JoinWords(Words(s))
  {
    if s == [] {
    } else if IsSpace(s[0]) {
      CollapseDropsFirst(s);
      CollapseThenStrip(s[1..]);
    } else {
      CollapseKeepsFirst(s);
      CollapseJoins(s);
    }
  }

  /** A sanitised header value is exactly the words of the value with one space between them. */
  lemma HeaderSafeJoinsWords(value: string)
    ensures HeaderSafe(value) == JoinWords(Words(value))
  {
    NewlinesAreSpace(value);
    CollapseThenStrip(value);
  }

  lemma {:induction false} JoinedWordsOneLine(words: seq<string>)
    requires forall i :: 0 <= i < |words| ==> Word(words[i])
    ensures forall i :: 0 <= i < |JoinWords(words)| ==> IsSpace(JoinWords(words)[i]) ==> JoinWords(words)[i] == ' '
  {
    hide IsSpace;
    if |words| > 1 {
      JoinedWordsOneLine(words[1..]);
      assert Word(words[0]);
    } else if |words| == 1 {
      assert Word(words[0]);
    }
  }

  /** No value, whatever it holds, can start a second header line. */
  lemma {:induction false} HeaderSafeIsOneLine(value: string)
    ensures Trimmed(HeaderSafe(value))
    ensures '\n' !in HeaderSafe(value) && '\r' !in HeaderSafe(value)
  {
    HeaderSafeJoinsWords(value);
    JoinedWordsOneLine(Words(value));
  }
}
