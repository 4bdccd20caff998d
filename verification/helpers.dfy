/** The text utilities of `utils/helpers.py`: whitespace normalisation
    (`clean_text`) and the language plausibility test (`validate_language`). */
module Helpers {
  import opened Text

  /** The non-whitespace characters of `s`, in order. */
  function NonSpace(s: string): string {
    if s == [] then [] else (if IsSpace(s[0]) then [] else [s[0]]) + NonSpace(s[1..])
  }

  lemma {:induction false} NonSpaceAppend(a: string, b: string)
    ensures NonSpace(a + b) == NonSpace(a) + NonSpace(b)
  {
    if a == [] {
      assert a + b == b;
    } else {
      assert (a + b)[0] == a[0];
      assert (a + b)[1..] == a[1..] + b;
      NonSpaceAppend(a[1..], b);
    }
  }

  lemma {:induction false} NonSpaceOfBlank(s: string)
    requires forall i :: 0 <= i < |s| ==> IsSpace(s[i])
    ensures NonSpace(s) == []
  {
    if s != [] {
      NonSpaceOfBlank(s[1..]);
    }
  }

  /** Removing whitespace around a slice keeps the non-whitespace characters. */
  lemma NonSpaceOfSlice(s: string, r: string, a: int)
    requires SliceWithinSpace(s, r, a)
    ensures NonSpace(r) == NonSpace(s)
  {
    var pre, post := s[..a], s[a + |r|..];
    assert s == pre + r + post;
    assert forall i :: 0 <= i < |pre| ==> pre[i] == s[i];
    assert forall i :: 0 <= i < |post| ==> post[i] == s[a + |r| + i];
    NonSpaceOfBlank(pre);
    NonSpaceOfBlank(post);
    NonSpaceAppend(pre + r, post);
    NonSpaceAppend(pre, r);
    assert NonSpace(s) == NonSpace(pre) + NonSpace(r) + NonSpace(post);
  }

  /** No two adjacent characters of `s` are both whitespace. */
  predicate NoDoubleSpace(s: string) {
    forall i :: 0 <= i < |s| - 1 ==> !(IsSpace(s[i]) && IsSpace(s[i + 1]))
  }

  /** The only whitespace character `s` contains is the plain space. */
  predicate OnlyPlainSpaces(s: string) {
    forall i :: 0 <= i < |s| && IsSpace(s[i]) ==> s[i] == ' '
  }

  /** `re.sub(r'\s+', ' ', s)`: each maximal whitespace run becomes one space. */
  function CollapseWhitespace(s: string): (r: string)
    ensures OnlyPlainSpaces(r)
    ensures NoDoubleSpace(r)
    ensures NonSpace(r) == NonSpace(s)
    ensures r == [] <==> s == []
    ensures r != [] ==> (IsSpace(r[0]) <==> IsSpace(s[0]))
    decreases |s|
  {
    if s == [] then []
    else if IsSpace(s[0]) then
      var rest := TrimStart(s);
      NonSpaceOfSlice(s, rest, |s| - |rest|);
      CollapseSpaceStep(s, rest, CollapseWhitespace(rest));
      " " + CollapseWhitespace(rest)
    else
      CollapseLetterStep(s, CollapseWhitespace(s[1..]));
      [s[0]] + CollapseWhitespace(s[1..])
  }

  /** A leading whitespace run becomes one space in front of the collapsed
      rest, which starts with a non-whitespace character. */
  lemma CollapseSpaceStep(s: string, rest: string, c: string)
    requires s != [] && IsSpace(s[0])
    requires rest == [] || !IsSpace(rest[0])
    requires NonSpace(rest) == NonSpace(s)
    requires OnlyPlainSpaces(c) && NoDoubleSpace(c) && NonSpace(c) == NonSpace(rest)
    requires c == [] <==> rest == []
    requires c != [] ==> (IsSpace(c[0]) <==> IsSpace(rest[0]))
    ensures var r := " " + c;
            && OnlyPlainSpaces(r) && NoDoubleSpace(r) && NonSpace(r) == NonSpace(s)
            && r != [] && IsSpace(r[0])
  {
    ConsCollapsed(' ', c);
    NonSpaceAppend(" ", c);
    assert NonSpace(" ") == [];
  }

  /** A non-whitespace character is copied in front of the collapsed rest. */
  lemma CollapseLetterStep(s: string, c: string)
    requires s != [] && !IsSpace(s[0])
    requires OnlyPlainSpaces(c) && NoDoubleSpace(c) && NonSpace(c) == NonSpace(s[1..])
    ensures var r := [s[0]] + c;
            && OnlyPlainSpaces(r) && NoDoubleSpace(r) && NonSpace(r) == NonSpace(s)
            && r != [] && !IsSpace(r[0])
  {
    ConsCollapsed(s[0], c);
    SameNonSpaceConcat([s[0]], [s[0]], c, s[1..]);
    assert s == [s[0]] + s[1..];
  }

  /** A plain space or a non-whitespace character in front of a collapsed
      string keeps it collapsed, unless two spaces would meet. */
  lemma ConsCollapsed(x: char, c: string)
    requires x == ' ' || !IsSpace(x)
    requires OnlyPlainSpaces(c) && NoDoubleSpace(c)
    requires IsSpace(x) ==> c == [] || !IsSpace(c[0])
    ensures OnlyPlainSpaces([x] + c) && NoDoubleSpace([x] + c)
  {
    var r := [x] + c;
    forall i | 1 <= i < |r|
      ensures r[i] == c[i - 1]
    {
    }
  }


  /** A string already in collapsed form is left alone by `CollapseWhitespace`. */
  lemma {:induction false} CollapseFixpoint(t: string)
    requires OnlyPlainSpaces(t) && NoDoubleSpace(t)
    ensures CollapseWhitespace(t) == t
    decreases |t|
  {
    if t != [] {
      var tail := t[1..];
      assert forall i :: 0 <= i < |tail| ==> tail[i] == t[i + 1];
      assert OnlyPlainSpaces(tail) && NoDoubleSpace(tail);
      CollapseFixpoint(tail);
      if IsSpace(t[0]) {
        assert tail == [] || !IsSpace(tail[0]);
        assert TrimStart(tail) == tail;
        assert TrimStart(t) == tail;
        assert t == " " + tail;
      } else {
        assert t == [t[0]] + tail;
      }
    }
  }

  /** The length of the run of newlines that starts `s`. */
  function NewlineRun(s: string): (k: nat)
    ensures k <= |s|
    ensures forall i :: 0 <= i < k ==> s[i] == '\n'
    ensures k < |s| ==> s[k] != '\n'
  {
    if s != [] && s[0] == '\n' then 1 + NewlineRun(s[1..]) else 0
  }

  /** `re.sub(r'\n{3,}', '\n\n', s)`: a run of three or more newlines
      becomes exactly two. */
  function SquashNewlines(s: string): (r: string)
    ensures |r| <= |s|
    ensures r == [] <==> s == []
    ensures r != [] ==> (r[0] == '\n' <==> s[0] == '\n')
    decreases |s|
  {
    if s == [] then []
    else if s[0] != '\n' then [s[0]] + SquashNewlines(s[1..])
    else
      var k := NewlineRun(s);
      (if k >= 3 then "\n\n" else s[..k]) + SquashNewlines(s[k..])
  }

  /** No three newlines in a row. */
  predicate NoTripleNewline(s: string) {
    forall i :: 0 <= i < |s| - 2 ==> !(s[i] == '\n' && s[i + 1] == '\n' && s[i + 2] == '\n')
  }

  /** After the newline pass no run of three newlines is left. */
  lemma {:induction false} SquashLeavesNoTriple(s: string)
    ensures NoTripleNewline(SquashNewlines(s))
    decreases |s|
  {
    if s != [] {
      if s[0] != '\n' {
        SquashLeavesNoTriple(s[1..]);
        NoTripleCons(s[0], SquashNewlines(s[1..]));
      } else {
        var k := NewlineRun(s);
        SquashLeavesNoTriple(s[k..]);
        NoTripleBeforeBreak(if k >= 3 then "\n\n" else s[..k], SquashNewlines(s[k..]));
      }
    }
  }

  /** A character other than a newline in front keeps the property. */
  lemma NoTripleCons(c: char, t: string)
    requires c != '\n' && NoTripleNewline(t)
    ensures NoTripleNewline([c] + t)
  {
    var u := [c] + t;
    forall i | 0 <= i < |u| - 2
      ensures !(u[i] == '\n' && u[i + 1] == '\n' && u[i + 2] == '\n')
    {
      if i > 0 {
        assert u[i] == t[i - 1] && u[i + 1] == t[i] && u[i + 2] == t[i + 1];
      }
    }
  }

  /** At most two characters in front of a text that does not start with a
      newline keep the property. */
  lemma NoTripleBeforeBreak(p: string, t: string)
    requires |p| <= 2 && NoTripleNewline(t)
    requires t == [] || t[0] != '\n'
    ensures NoTripleNewline(p + t)
  {
    var u := p + t;
    forall i | 0 <= i < |u| - 2
      ensures !(u[i] == '\n' && u[i + 1] == '\n' && u[i + 2] == '\n')
    {
      if i >= |p| {
        assert u[i] == t[i - |p|] && u[i + 1] == t[i - |p| + 1] && u[i + 2] == t[i - |p| + 2];
      } else {
        assert u[|p|] == t[0];
      }
    }
  }

  /** The newline pass only ever removes newlines: every other non-whitespace
      character is kept, in order. */
  lemma {:induction false} SquashKeepsNonSpace(s: string)
    ensures NonSpace(SquashNewlines(s)) == NonSpace(s)
    decreases |s|
  {
    if s != [] {
      if s[0] != '\n' {
        SquashKeepsNonSpace(s[1..]);
        SameNonSpaceConcat([s[0]], [s[0]], SquashNewlines(s[1..]), s[1..]);
        assert s == [s[0]] + s[1..];
      } else {
        var k := NewlineRun(s);
        var p := if k >= 3 then "\n\n" else s[..k];
        SquashKeepsNonSpace(s[k..]);
        NewlineRunStep(s, k, p, SquashNewlines(s[k..]));
      }
    }
  }

  /** Replacing a leading run of newlines by at most two keeps the
      non-whitespace characters. */
  lemma NewlineRunStep(s: string, k: nat, p: string, t: string)
    requires k <= |s| && forall i :: 0 <= i < k ==> s[i] == '\n'
    requires forall i :: 0 <= i < |p| ==> p[i] == '\n'
    requires NonSpace(t) == NonSpace(s[k..])
    ensures NonSpace(p + t) == NonSpace(s)
  {
    NewlinesAreBlank(p);
    NewlinesAreBlank(s[..k]);
    SameNonSpaceConcat(p, s[..k], t, s[k..]);
    assert s == s[..k] + s[k..];
  }

  lemma NewlinesAreBlank(p: string)
    requires forall i :: 0 <= i < |p| ==> p[i] == '\n'
    ensures NonSpace(p) == []
  {
    NonSpaceOfBlank(p);
  }

  /** Concatenation respects equality of the non-whitespace characters. */
  lemma SameNonSpaceConcat(p: string, q: string, a: string, b: string)
    requires NonSpace(p) == NonSpace(q) && NonSpace(a) == NonSpace(b)
    ensures NonSpace(p + a) == NonSpace(q + b)
  {
    NonSpaceAppend(p, a);
    NonSpaceAppend(q, b);
  }

  /** The characters of `s` other than the newline, in order. */
  function NonNewline(s: string): string {
    if s == [] then [] else (if s[0] == '\n' then [] else [s[0]]) + NonNewline(s[1..])
  }

  lemma {:induction false} NonNewlineAppend(a: string, b: string)
    ensures NonNewline(a + b) == NonNewline(a) + NonNewline(b)
  {
    if a == [] {
      assert a + b == b;
    } else {
      assert (a + b)[0] == a[0];
      assert (a + b)[1..] == a[1..] + b;
      NonNewlineAppend(a[1..], b);
    }
  }

  lemma {:induction false} NewlinesDropped(p: string)
    requires forall i :: 0 <= i < |p| ==> p[i] == '\n'
    ensures NonNewline(p) == []
    decreases |p|
  {
    if p != [] {
      NewlinesDropped(p[1..]);
    }
  }

  /** The newline pass touches nothing but newlines: every other character,
      spaces and tabs included, is kept, in order. */
  lemma {:induction false} SquashKeepsNonNewline(s: string)
    ensures NonNewline(SquashNewlines(s)) == NonNewline(s)
    decreases |s|
  {
    if s != [] {
      if s[0] != '\n' {
        SquashKeepsNonNewline(s[1..]);
        NonNewlineAppend([s[0]], SquashNewlines(s[1..]));
      } else {
        var k := NewlineRun(s);
        var p := if k >= 3 then "\n\n" else s[..k];
        SquashKeepsNonNewline(s[k..]);
        NewlineRunKept(s, k, p, SquashNewlines(s[k..]));
      }
    }
  }

  /** Replacing a leading run of newlines by other newlines keeps every
      other character. */
  lemma NewlineRunKept(s: string, k: nat, p: string, t: string)
    requires k <= |s| && forall i :: 0 <= i < k ==> s[i] == '\n'
    requires forall i :: 0 <= i < |p| ==> p[i] == '\n'
    requires NonNewline(t) == NonNewline(s[k..])
    ensures NonNewline(p + t) == NonNewline(s)
  {
    NewlinesDropped(p);
    NewlinesDropped(s[..k]);
    NonNewlineAppend(p, t);
    NonNewlineAppend(s[..k], s[k..]);
    assert s == s[..k] + s[k..];
  }

  /** A text with no run of three newlines is left exactly as it is: runs of
      one or two newlines are not touched. */
  lemma {:induction false} SquashNoTripleNoop(s: string)
    requires NoTripleNewline(s)
    ensures SquashNewlines(s) == s
    decreases |s|
  {
    if s != [] {
      if s[0] != '\n' {
        NoTripleDrop(s, 1);
        SquashNoTripleNoop(s[1..]);
        assert s == [s[0]] + s[1..];
      } else {
        var k := NewlineRun(s);
        if |s| >= 3 {
          assert !(s[0] == '\n' && s[1] == '\n' && s[2] == '\n');
        }
        assert k < 3;
        NoTripleDrop(s, k);
        SquashNoTripleNoop(s[k..]);
        assert s == s[..k] + s[k..];
      }
    }
  }

  /** A suffix of a text with no run of three newlines has none either. */
  lemma NoTripleDrop(s: string, m: nat)
    requires NoTripleNewline(s) && m <= |s|
    ensures NoTripleNewline(s[m..])
  {
    var t := s[m..];
    forall i | 0 <= i < |t| - 2
      ensures !(t[i] == '\n' && t[i + 1] == '\n' && t[i + 2] == '\n')
    {
      assert t[i] == s[m + i] && t[i + 1] == s[m + i + 1] && t[i + 2] == s[m + i + 2];
    }
  }

  /** Without any newline there is nothing for the newline pass to do. */
  lemma {:induction false} SquashNewlinesNoop(s: string)
    requires '\n' !in s
    ensures SquashNewlines(s) == s
  {
    if s != [] {
      assert s[0] in s;
      assert forall c :: c in s[1..] ==> c in s;
      SquashNewlinesNoop(s[1..]);
      assert s == [s[0]] + s[1..];
    }
  }

  /** A string whose only whitespace is the plain space has no newline. */
  lemma PlainSpacesHaveNoNewline(s: string)
    requires OnlyPlainSpaces(s)
    ensures '\n' !in s
  {
    if '\n' in s {
      var i :| 0 <= i < |s| && s[i] == '\n';
      assert IsSpace(s[i]);
    }
  }

  /** Stripping a collapsed string keeps it collapsed and keeps its
      non-whitespace characters. */
  lemma StripCollapsed(c: string)
    requires OnlyPlainSpaces(c) && NoDoubleSpace(c)
    ensures OnlyPlainSpaces(Strip(c)) && NoDoubleSpace(Strip(c))
    ensures NonSpace(Strip(c)) == NonSpace(c)
  {
    CollapsedSlice(c, Strip(c), |c| - |TrimStart(c)|);
  }

  /** A slice of a collapsed string with only whitespace around it is
      collapsed and has the same non-whitespace characters. */
  lemma CollapsedSlice(c: string, r: string, a: int)
    requires OnlyPlainSpaces(c) && NoDoubleSpace(c)
    requires SliceWithinSpace(c, r, a)
    ensures OnlyPlainSpaces(r) && NoDoubleSpace(r) && NonSpace(r) == NonSpace(c)
  {
    NonSpaceOfSlice(c, r, a);
    SliceKeepsCollapsed(c, r, a);
  }

  /** Any slice of a collapsed string is collapsed. */
  lemma SliceKeepsCollapsed(c: string, r: string, a: int)
    requires OnlyPlainSpaces(c) && NoDoubleSpace(c)
    requires 0 <= a && a + |r| <= |c| && r == c[a..a + |r|]
    ensures OnlyPlainSpaces(r) && NoDoubleSpace(r)
  {
    forall i | 0 <= i < |r|
      ensures r[i] == c[a + i]
    {
    }
    forall i | 0 <= i < |r| - 1
      ensures !(IsSpace(r[i]) && IsSpace(r[i + 1]))
    {
      assert r[i] == c[a + i] && r[i + 1] == c[a + i + 1];
    }
  }

  /** `clean_text`: collapse whitespace, squash newline runs, strip. */
  function CleanText(text: string): (r: string)
    ensures text == "" ==> r == ""
    ensures NoDoubleSpace(r)
    ensures OnlyPlainSpaces(r)
    ensures '\n' !in r
    ensures r == [] || (!IsSpace(r[0]) && !IsSpace(r[|r| - 1]))
    ensures NonSpace(r) == NonSpace(text)
  {
    if text == "" then ""
    else
      var collapsed := CollapseWhitespace(text);
      PlainSpacesHaveNoNewline(collapsed);
      SquashNewlinesNoop(collapsed);
      StripCollapsed(collapsed);
      PlainSpacesHaveNoNewline(Strip(collapsed));
      Strip(SquashNewlines(collapsed))
  }

  /** `clean_text` is `" ".join(text.split())`: the words of the text,
      separated by single spaces. */
  lemma CleanTextIsWords(text: string)
    ensures CleanText(text) == Join(Words(text), " ")
  {
    if text == "" {
      assert Words(text) == [];
    } else {
      CleanIsStripCollapse(text);
      StripCollapseIsWords(text);
    }
  }

  lemma CleanIsStripCollapse(text: string)
    requires text != ""
    ensures CleanText(text) == Strip(CollapseWhitespace(text))
  {
    var c := CollapseWhitespace(text);
    PlainSpacesHaveNoNewline(c);
    SquashNewlinesNoop(c);
  }

  /** Stripping the collapsed text leaves the words and their single
      separating spaces. */
  lemma StripCollapseIsWords(text: string)
    ensures Strip(CollapseWhitespace(text)) == Join(Words(text), " ")
  {
    var j := Join(Words(text), " ");
    CollapseAsWords(text);
    WordsAreWords(text);
    JoinWordsBounded(Words(text));
    PadsAreSpace(text);
    StripPadded(Lead(text), j, Trail(text));
  }

  lemma PadsAreSpace(s: string)
    ensures forall i :: 0 <= i < |Lead(s)| ==> IsSpace(Lead(s)[i])
    ensures forall i :: 0 <= i < |Trail(s)| ==> IsSpace(Trail(s)[i])
  {
    PadIsSpace(Lead(s));
    PadIsSpace(Trail(s));
  }

  lemma PadIsSpace(x: string)
    requires x == " " || x == ""
    ensures forall i :: 0 <= i < |x| ==> IsSpace(x[i])
  {
  }

  /** The length of the run of non-whitespace characters that starts `s`. */
  function WordLength(s: string): (k: nat)
    ensures k <= |s|
    ensures forall i :: 0 <= i < k ==> !IsSpace(s[i])
    ensures k < |s| ==> IsSpace(s[k])
  {
    if s != [] && !IsSpace(s[0]) then 1 + WordLength(s[1..]) else 0
  }

  /** A word: a non-empty run of non-whitespace characters. */
  predicate IsWord(w: string) {
    w != [] && forall j :: 0 <= j < |w| ==> !IsSpace(w[j])
  }

  /** `s.split()`: the maximal runs of non-whitespace characters, in order. */
  function Words(s: string): seq<string>
    decreases |s|
  {
    var t := TrimStart(s);
    if t == [] then []
    else
      var n := WordLength(t);
      [t[..n]] + Words(t[n..])
  }

  /** Every element of `Words(s)` is a word, and there is none exactly when
      `s` is all whitespace. */
  lemma {:induction false} WordsAreWords(s: string)
    ensures AllWords(Words(s))
    ensures Words(s) == [] <==> TrimStart(s) == []
    decreases |s|
  {
    var t := TrimStart(s);
    WordsUnfold(s);
    if t != [] {
      var n := WordLength(t);
      WordsAreWords(t[n..]);
      FirstWordIsWord(t);
      ConsWords(t[..n], Words(t[n..]));
    }
  }

  /** Every element of `ws` is a word. */
  predicate AllWords(ws: seq<string>) {
    forall i :: 0 <= i < |ws| ==> IsWord(ws[i])
  }

  /** One step of `Words`. */
  lemma WordsUnfold(s: string)
    ensures TrimStart(s) == [] ==> Words(s) == []
    ensures TrimStart(s) != [] ==>
              var t := TrimStart(s);
              Words(s) == [t[..WordLength(t)]] + Words(t[WordLength(t)..])
  {
  }

  lemma FirstWordIsWord(t: string)
    requires t != [] && !IsSpace(t[0])
    ensures IsWord(t[..WordLength(t)])
  {
  }

  lemma ConsWords(x: string, rest: seq<string>)
    requires IsWord(x) && AllWords(rest)
    ensures AllWords([x] + rest)
  {
    var ws := [x] + rest;
    forall i | 0 <= i < |ws|
      ensures IsWord(ws[i])
    {
      if i > 0 {
        assert ws[i] == rest[i - 1];
      }
    }
  }

  /** Words joined by single spaces start and end with a non-whitespace
      character, and are empty only when there are no words. */
  lemma {:induction false} JoinWordsBounded(ws: seq<string>)
    requires AllWords(ws)
    ensures var j := Join(ws, " ");
            (j == [] <==> ws == []) && (j == [] || (!IsSpace(j[0]) && !IsSpace(j[|j| - 1])))
  {
    if |ws| > 1 {
      var rest := Join(ws[1..], " ");
      JoinWordsBounded(ws[1..]);
      assert IsWord(ws[0]);
      var j := ws[0] + " " + rest;
      assert j[0] == ws[0][0];
      assert j[|j| - 1] == rest[|rest| - 1];
    } else if |ws| == 1 {
      assert IsWord(ws[0]);
    }
  }

  /** A single space when `s` begins with whitespace. */
  function Lead(s: string): string {
    if s != [] && IsSpace(s[0]) then " " else ""
  }

  /** A single space when `s` ends with whitespace that follows a
      non-whitespace character. */
  function Trail(s: string): string {
    if TrimStart(s) != [] && IsSpace(s[|s| - 1]) then " " else ""
  }

  /** Collapsing a string that starts with a word copies the word. */
  lemma {:induction false} CollapseWord(t: string)
    requires t != [] && !IsSpace(t[0])
    ensures CollapseWhitespace(t) == t[..WordLength(t)] + CollapseWhitespace(t[WordLength(t)..])
    decreases |t|
  {
    var n := WordLength(t);
    var tail := t[1..];
    CollapseKeepsLetter(t);
    if n == 1 {
      assert t[..1] == [t[0]] && t[1..] == tail;
    } else {
      CollapseWord(tail);
      SplitAfterFirst(t, n);
      var m := WordLength(tail);
      assert m == n - 1;
      assert tail[m..] == t[n..];
      assert CollapseWhitespace(tail[m..]) == CollapseWhitespace(t[n..]);
      assert CollapseWhitespace(tail) == tail[..m] + CollapseWhitespace(t[n..]);
      WordStep(t, n, CollapseWhitespace(t), CollapseWhitespace(tail), CollapseWhitespace(t[n..]));
    }
  }

  lemma WordStep(t: string, n: int, ct: string, ctail: string, a: string)
    requires 1 < n <= |t|
    requires ct == [t[0]] + ctail
    requires ctail == t[1..][..n - 1] + a
    ensures ct == t[..n] + a
  {
    assert t[..n] == [t[0]] + t[1..][..n - 1];
  }

  /** A non-whitespace first character is copied and the rest collapsed. */
  lemma CollapseKeepsLetter(t: string)
    requires t != [] && !IsSpace(t[0])
    ensures CollapseWhitespace(t) == [t[0]] + CollapseWhitespace(t[1..])
    ensures WordLength(t) == 1 + WordLength(t[1..])
  {
  }

  lemma SplitAfterFirst(t: string, n: int)
    requires 1 <= n <= |t|
    ensures t[1..][..n - 1] == t[1..n] && t[1..][n - 1..] == t[n..]
    ensures t[..n] == [t[0]] + t[1..][..n - 1]
  {
  }

  /** `re.sub(r'\s+', ' ', s)` is the words of `s` separated by single
      spaces, with one more space in front when `s` starts with whitespace
      and one more at the end when `s` ends with whitespace after a word. */
  lemma {:induction false} CollapseAsWords(s: string)
    ensures CollapseWhitespace(s) == Lead(s) + Join(Words(s), " ") + Trail(s)
    decreases |s|
  {
    if s == [] {
      assert Words(s) == [];
    } else if IsSpace(s[0]) {
      CollapseAsWords(TrimStart(s));
      SpaceThenRest(s);
    } else {
      CollapseAsWords(s[WordLength(s)..]);
      WordThenRest(s);
    }
  }

  /** The step of `CollapseAsWords` for a string that starts with
      whitespace. */
  lemma SpaceThenRest(s: string)
    requires s != [] && IsSpace(s[0])
    requires var t := TrimStart(s);
             CollapseWhitespace(t) == Lead(t) + Join(Words(t), " ") + Trail(t)
    ensures CollapseWhitespace(s) == Lead(s) + Join(Words(s), " ") + Trail(s)
  {
    var t := TrimStart(s);
    SkipLeadingSpace(s);
    RegroupFirst(CollapseWhitespace(s), CollapseWhitespace(t), Lead(t), Join(Words(t), " "), Trail(t),
                 Lead(s), Join(Words(s), " "), Trail(s));
  }

  /** The string algebra that closes `SpaceThenRest`. */
  lemma RegroupFirst(c: string, ct: string, lt: string, jt: string, tt: string,
                     ls: string, js: string, ts: string)
    requires c == " " + ct && ct == lt + jt + tt
    requires lt == "" && jt == js && tt == ts && ls == " "
    ensures c == ls + js + ts
  {
  }

  /** The step of `CollapseAsWords` for a string that starts with a word. */
  lemma WordThenRest(s: string)
    requires s != [] && !IsSpace(s[0])
    requires var rest := s[WordLength(s)..];
             CollapseWhitespace(rest) == Lead(rest) + Join(Words(rest), " ") + Trail(rest)
    ensures CollapseWhitespace(s) == Lead(s) + Join(Words(s), " ") + Trail(s)
  {
    var rest := s[WordLength(s)..];
    if rest == [] {
      OnlyWord(s);
    } else if TrimStart(rest) == [] {
      WordThenSpace(s);
    } else {
      WordThenWords(s);
    }
  }

  /** A string that is a single word collapses to itself. */
  lemma OnlyWord(s: string)
    requires s != [] && !IsSpace(s[0]) && s[WordLength(s)..] == []
    ensures CollapseWhitespace(s) == Lead(s) + Join(Words(s), " ") + Trail(s)
  {
    OnlyWordCollapse(s);
    OnlyWordWords(s);
    OnlyWordPads(s);
    assert Join([s], " ") == s;
  }

  lemma OnlyWordCollapse(s: string)
    requires s != [] && !IsSpace(s[0]) && s[WordLength(s)..] == []
    ensures CollapseWhitespace(s) == s
  {
    var n := WordLength(s);
    CollapseWord(s);
    assert s[n..] == [] && s[..n] == s;
    assert CollapseWhitespace(s[n..]) == [];
  }

  lemma OnlyWordWords(s: string)
    requires s != [] && !IsSpace(s[0]) && s[WordLength(s)..] == []
    ensures Words(s) == [s]
  {
    var n := WordLength(s);
    var empty: string := [];
    FirstWordSplits(s);
    assert s[n..] == empty && s[..n] == s;
    WordsUnfold(empty);
  }

  lemma OnlyWordPads(s: string)
    requires s != [] && !IsSpace(s[0]) && s[WordLength(s)..] == []
    ensures Lead(s) == "" && Trail(s) == ""
  {
    var n := WordLength(s);
    assert s[n..] == [] && s[..n] == s;
    assert TrimStart(s) == s;
    assert !IsSpace(s[|s| - 1]);
  }

  /** A word followed by whitespace only collapses to the word and one
      space. */
  lemma WordThenSpace(s: string)
    requires s != [] && !IsSpace(s[0])
    requires var rest := s[WordLength(s)..];
             && rest != [] && TrimStart(rest) == []
             && CollapseWhitespace(rest) == Lead(rest) + Join(Words(rest), " ") + Trail(rest)
    ensures CollapseWhitespace(s) == Lead(s) + Join(Words(s), " ") + Trail(s)
  {
    var rest := s[WordLength(s)..];
    LeadingWord(s);
    WordsAreWords(rest);
    TrailAfterLastWord(s, rest);
    assert Join(Words(rest), " ") == "";
    RegroupLast(CollapseWhitespace(s), s[..WordLength(s)], CollapseWhitespace(rest), Lead(rest),
                Join(Words(rest), " "), Trail(rest), Lead(s), Join(Words(s), " "), Trail(s));
  }

  /** The string algebra that closes `WordThenSpace`. */
  lemma RegroupLast(c: string, w: string, cr: string, lr: string, jr: string, tr: string,
                    ls: string, js: string, ts: string)
    requires c == w + cr && cr == lr + jr + tr
    requires lr == " " && jr == "" && tr == "" && ls == "" && js == w && ts == " "
    ensures c == ls + js + ts
  {
  }

  /** A word followed by more words: the word, one space, then the collapse
      of the rest. */
  lemma WordThenWords(s: string)
    requires s != [] && !IsSpace(s[0])
    requires var rest := s[WordLength(s)..];
             && rest != [] && TrimStart(rest) != []
             && CollapseWhitespace(rest) == Lead(rest) + Join(Words(rest), " ") + Trail(rest)
    ensures CollapseWhitespace(s) == Lead(s) + Join(Words(s), " ") + Trail(s)
  {
    var w, rest := s[..WordLength(s)], s[WordLength(s)..];
    LeadingWord(s);
    WordsAreWords(rest);
    TrailOfRest(s, rest);
    JoinCons(w, Words(rest), " ");
    Regroup(CollapseWhitespace(s), w, CollapseWhitespace(rest), Lead(rest), Join(Words(rest), " "),
            Trail(rest), Lead(s), Join(Words(s), " "), Trail(s));
  }

  /** The string algebra that closes `WordThenWords`. */
  lemma Regroup(c: string, w: string, cr: string, lr: string, jr: string, tr: string,
                ls: string, js: string, ts: string)
    requires c == w + cr && cr == lr + jr + tr
    requires lr == " " && tr == ts && ls == "" && js == w + " " + jr
    ensures c == ls + js + ts
  {
  }

  /** A word followed by whitespace only. */
  lemma TrailAfterLastWord(s: string, rest: string)
    requires s != [] && !IsSpace(s[0])
    requires rest == s[WordLength(s)..] && rest != [] && TrimStart(rest) == []
    ensures Trail(s) == " " && Trail(rest) == ""
    ensures Join(Words(s), " ") == s[..WordLength(s)]
  {
    var n := WordLength(s);
    assert TrimStart(s) == s;
    TrailOfNonBlank(s);
    SameLast(s, rest);
    assert IsSpace(rest[|rest| - 1]);
    WordsUnfold(s);
    WordsUnfold(rest);
    assert Words(s) == [s[..n]];
  }

  /** After a word, the trailing space of the rest is that of the whole. */
  lemma TrailOfRest(s: string, rest: string)
    requires s != [] && !IsSpace(s[0])
    requires rest == s[WordLength(s)..] && TrimStart(rest) != []
    ensures Trail(rest) == Trail(s)
  {
    assert TrimStart(s) == s;
    TrailOfNonBlank(s);
    TrailOfNonBlank(rest);
    SameLast(s, rest);
  }

  /** `Trail` of a string with a non-whitespace character looks only at its
      last character. */
  lemma TrailOfNonBlank(t: string)
    requires TrimStart(t) != []
    ensures t != [] && Trail(t) == if IsSpace(t[|t| - 1]) then " " else ""
  {
  }

  /** Joining a list with a first part. */
  lemma JoinCons(w: string, ws: seq<string>, sep: string)
    requires ws != []
    ensures Join([w] + ws, sep) == w + sep + Join(ws, sep)
  {
    assert ([w] + ws)[1..] == ws;
  }

  /** Leading whitespace becomes one space and does not change the words. */
  lemma SkipLeadingSpace(s: string)
    requires s != [] && IsSpace(s[0])
    ensures |TrimStart(s)| < |s|
    ensures CollapseWhitespace(s) == " " + CollapseWhitespace(TrimStart(s))
    ensures Words(s) == Words(TrimStart(s))
    ensures Lead(s) == " " && Lead(TrimStart(s)) == ""
    ensures Trail(s) == Trail(TrimStart(s))
  {
    CollapseLeadingSpace(s);
    PadAfterTrim(s);
    SameWordsAfterTrim(s);
  }

  lemma CollapseLeadingSpace(s: string)
    requires s != [] && IsSpace(s[0])
    ensures |TrimStart(s)| < |s|
    ensures CollapseWhitespace(s) == " " + CollapseWhitespace(TrimStart(s))
  {
  }

  lemma PadAfterTrim(s: string)
    requires s != [] && IsSpace(s[0])
    ensures Lead(s) == " " && Lead(TrimStart(s)) == ""
    ensures Trail(s) == Trail(TrimStart(s))
  {
    TrimStartTwice(s);
    if TrimStart(s) != [] {
      SameLast(s, TrimStart(s));
    }
  }

  lemma SameWordsAfterTrim(s: string)
    ensures Words(s) == Words(TrimStart(s))
  {
    TrimStartTwice(s);
    WordsUnfold(s);
    WordsUnfold(TrimStart(s));
  }

  lemma TrimStartTwice(s: string)
    ensures TrimStart(TrimStart(s)) == TrimStart(s)
  {
    var t := TrimStart(s);
    assert t == [] || !IsSpace(t[0]);
  }

  lemma SameLast(s: string, t: string)
    requires t != [] && |t| <= |s| && t == s[|s| - |t|..]
    ensures t[|t| - 1] == s[|s| - 1]
  {
  }

  /** A string that starts with a word: the word is copied and is the first
      of the words. */
  lemma LeadingWord(s: string)
    requires s != [] && !IsSpace(s[0])
    ensures CollapseWhitespace(s) == s[..WordLength(s)] + CollapseWhitespace(s[WordLength(s)..])
    ensures Words(s) == [s[..WordLength(s)]] + Words(s[WordLength(s)..])
    ensures Lead(s) == ""
    ensures s[WordLength(s)..] == [] ==> s[..WordLength(s)] == s
    ensures s[WordLength(s)..] != [] ==> Lead(s[WordLength(s)..]) == " "
  {
    CollapseWord(s);
    FirstWordSplits(s);
    WordRestPads(s);
  }

  /** The words of a string that starts with a word. */
  lemma FirstWordSplits(s: string)
    requires s != [] && !IsSpace(s[0])
    ensures Words(s) == [s[..WordLength(s)]] + Words(s[WordLength(s)..])
  {
    assert TrimStart(s) == s;
    WordsUnfold(s);
  }

  /** What follows the first word is empty or starts with whitespace. */
  lemma WordRestPads(s: string)
    requires s != [] && !IsSpace(s[0])
    ensures Lead(s) == ""
    ensures s[WordLength(s)..] == [] ==> s[..WordLength(s)] == s
    ensures s[WordLength(s)..] != [] ==> Lead(s[WordLength(s)..]) == " "
  {
    var n := WordLength(s);
    if s[n..] == [] {
      assert s[..n] == s;
    } else {
      assert s[n..][0] == s[n];
    }
  }


  /** Stripping a text padded with whitespace on both sides gives back the
      text, when the text itself has no whitespace at either end. */
  lemma StripPadded(p: string, j: string, q: string)
    requires forall i :: 0 <= i < |p| ==> IsSpace(p[i])
    requires forall i :: 0 <= i < |q| ==> IsSpace(q[i])
    requires j == [] || (!IsSpace(j[0]) && !IsSpace(j[|j| - 1]))
    ensures Strip(p + j + q) == j
  {
    assert p + j + q == p + (j + q);
    if j == [] {
      var b := p + q;
      assert p + j + q == b + [];
      assert forall i :: 0 <= i < |b| ==> IsSpace(b[i]);
      TrimSpacePrefix(b, []);
    } else {
      TrimSpacePrefix(p, j + q);
      TrimSpaceSuffix(j, q);
    }
  }

  /** `lstrip()` removes a whitespace prefix in front of a text that does
      not start with whitespace. */
  lemma {:induction false} TrimSpacePrefix(p: string, x: string)
    requires forall i :: 0 <= i < |p| ==> IsSpace(p[i])
    requires x == [] || !IsSpace(x[0])
    ensures TrimStart(p + x) == x
  {
    if p == [] {
      assert p + x == x;
    } else {
      assert (p + x)[0] == p[0];
      assert (p + x)[1..] == p[1..] + x;
      TrimSpacePrefix(p[1..], x);
    }
  }

  /** `rstrip()` removes a whitespace suffix after a text that does not end
      with whitespace. */
  lemma {:induction false} TrimSpaceSuffix(x: string, q: string)
    requires forall i :: 0 <= i < |q| ==> IsSpace(q[i])
    requires x == [] || !IsSpace(x[|x| - 1])
    ensures TrimEnd(x + q) == x
    decreases |q|
  {
    if q == [] {
      assert x + q == x;
    } else {
      var init := q[..|q| - 1];
      assert (x + q)[|x + q| - 1] == q[|q| - 1];
      assert (x + q)[..|x + q| - 1] == x + init;
      TrimSpaceSuffix(x, init);
    }
  }

  /** A string without surrounding whitespace is its own `strip()`. */
  lemma StripNoop(s: string)
    requires s == [] || (!IsSpace(s[0]) && !IsSpace(s[|s| - 1]))
    ensures Strip(s) == s
  {
    var r := Strip(s);
    var a := |s| - |TrimStart(s)|;
  }

  /** Cleaning is idempotent. */
  lemma CleanTextIdempotent(text: string)
    ensures CleanText(CleanText(text)) == CleanText(text)
  {
    var t := CleanText(text);
    if t != "" {
      CollapseFixpoint(t);
      SquashNewlinesNoop(t);
      StripNoop(t);
    }
  }


  /** An alphabetic character outside the Arabic block. */
  function Foreign(isAlpha: char -> bool): char -> bool {
    c => isAlpha(c) && !IsArabic(c)
  }

  /** `sum(1 for c in text if c.isalpha() and not ('\u0600' <= c <= '\u06FF'))`:
      zero exactly when every alphabetic character is in the Arabic block. */
  function ForeignLetters(s: string, isAlpha: char -> bool): (n: nat)
    ensures n <= |s|
    ensures n == 0 <==> forall i :: 0 <= i < |s| ==> !isAlpha(s[i]) || IsArabic(s[i])
  {
    AnyIffExists(s, Foreign(isAlpha));
    Count(s, Foreign(isAlpha))
  }

  /** `validate_language(text, lang)`, with `str.isalpha` given as `isAlpha`.
      The source compares an integer count with the float `len(text) * 0.3`;
      its rounding error is far below the 0.1 gap between that product and
      any integer it is not equal to, so the comparison is taken as the exact
      `10 * count < 3 * len`. */
  function ValidateLanguage(text: string, lang: string, isAlpha: char -> bool): (ok: bool)
    ensures text == "" ==> !ok
    ensures lang == "ar" ==>
              (ok <==> && (exists i :: 0 <= i < |text| && IsArabic(text[i]))
                       && 10 * ForeignLetters(text, isAlpha) < 3 * |text|)
    ensures lang != "ar" ==>
              (ok <==> exists i :: 0 <= i < |text| && IsAsciiLetter(text[i]))
  {
    if text == "" then false
    else if lang == "ar" then
      AnyIffExists(text, IsArabic);
      Any(text, IsArabic) && 10 * ForeignLetters(text, isAlpha) < 3 * |text|
    else
      AnyIffExists(text, IsAsciiLetter);
      Any(text, IsAsciiLetter)
  }

  /** A text written only in the Arabic block, digits, spaces and punctuation
      (no foreign letters) passes the Arabic check once it has one Arabic
      character. */
  lemma ArabicTextValidates(text: string, isAlpha: char -> bool)
    requires exists i :: 0 <= i < |text| && IsArabic(text[i])
    requires forall i :: 0 <= i < |text| ==> !isAlpha(text[i]) || IsArabic(text[i])
    ensures ValidateLanguage(text, "ar", isAlpha)
  {
    assert ForeignLetters(text, isAlpha) == 0;
  }
}
