/** The Python string operations the generator relies on, over `seq<char>`. */
module Text {

  /** Python's `str.isspace`; a `\s` in a `str` regular expression matches the same characters. */
  predicate IsSpace(c: char)
  {
    || ('\t' <= c <= '\r')
    || ('\U{1C}' <= c <= '\U{1F}')
    || c == ' '
    || c == '\U{85}'
    || c == '\U{A0}'
    || c == '\U{1680}'
    || ('\U{2000}' <= c <= '\U{200A}')
    || c == '\U{2028}'
    || c == '\U{2029}'
    || c == '\U{202F}'
    || c == '\U{205F}'
    || c == '\U{3000}'
  }

  predicate NoEdgeSpace(s: string)
  {
    s == [] || (!IsSpace(s[0]) && !IsSpace(s[|s| - 1]))
  }

  /** Every whitespace character is a plain space and no two are adjacent. */
  ghost predicate SingleSpaced(s: string)
  {
    && (forall i :: 0 <= i < |s| && IsSpace(s[i]) ==> s[i] == ' ')
    && (forall i, j {:trigger s[i], s[j]} :: 0 <= i && j == i + 1 && j < |s| && IsSpace(s[i]) ==> !IsSpace(s[j]))
  }

  predicate NoNewline(s: string)
  {
    forall i :: 0 <= i < |s| ==> s[i] != '\n'
  }

  predicate StartsWith(s: string, prefix: string)
  {
    |prefix| <= |s| && s[..|prefix|] == prefix
  }

  /** Python's `s.endswith(suffix)`. */
  predicate EndsWith(s: string, suffix: string)
  {
    |suffix| <= |s| && s[|s| - |suffix|..] == suffix
  }

  /** Ending in a one-character suffix is having that character last. */
  lemma EndsWithChar(s: string, c: char)
    ensures EndsWith(s, [c]) <==> s != [] && s[|s| - 1] == c
  {
    if s != [] {
      assert s[|s| - 1..] == [s[|s| - 1]];
    }
  }

  /** Python's `sub in s`. */
  predicate Contains(s: string, sub: string)
    decreases |s|
  {
    StartsWith(s, sub) || (s != [] && Contains(s[1..], sub))
  }

  /** How many whitespace characters `s` starts with. */
  function LeadingSpace(s: string): (n: nat)
    ensures n <= |s|
    ensures forall i :: 0 <= i < n ==> IsSpace(s[i])
    ensures n < |s| ==> !IsSpace(s[n])
    decreases |s|
  {
    if s != [] && IsSpace(s[0]) then 1 + LeadingSpace(s[1..]) else 0
  }

  /** Where the trailing whitespace of `s` begins. */
  function TrailingStart(s: string): (n: nat)
    ensures n <= |s|
    ensures forall i :: n <= i < |s| ==> IsSpace(s[i])
    ensures n > 0 ==> !IsSpace(s[n - 1])
    decreases |s|
  {
    if s != [] && IsSpace(s[|s| - 1]) then TrailingStart(s[..|s| - 1]) else |s|
  }

  /** `s.rstrip()`. */
  function RStrip(s: string): (r: string)
    ensures |r| <= |s| && r == s[..|r|]
    ensures forall i :: |r| <= i < |s| ==> IsSpace(s[i])
    ensures r == [] || !IsSpace(r[|r| - 1])
  {
    s[..TrailingStart(s)]
  }

  /** `s.lstrip()`. */
  function LStrip(s: string): (r: string)
    ensures |r| <= |s| && r == s[|s| - |r|..]
    ensures forall i :: 0 <= i < |s| - |r| ==> IsSpace(s[i])
    ensures r == [] || !IsSpace(r[0])
  {
    s[LeadingSpace(s)..]
  }

  /** `s.strip()`: the slice of `s` between its leading and its trailing whitespace. */
  function Strip(s: string): (r: string)
    ensures NoEdgeSpace(r)
    ensures LeadingSpace(s) + |r| <= |s| && r == s[LeadingSpace(s)..LeadingSpace(s) + |r|]
    ensures forall i :: 0 <= i < LeadingSpace(s) ==> IsSpace(s[i])
    ensures forall i :: LeadingSpace(s) + |r| <= i < |s| ==> IsSpace(s[i])
  {
    var a, b := LeadingSpace(s), TrailingStart(s);
    if a < b then s[a..b] else []
  }

  /** The characters of `s` that are not whitespace, in order. */
  function NonSpaces(s: string): string
    decreases |s|
  {
    if s == [] then [] else (if IsSpace(s[0]) then [] else [s[0]]) + NonSpaces(s[1..])
  }

  lemma {:induction false} NonSpacesAppend(a: string, b: string)
    ensures NonSpaces(a + b) == NonSpaces(a) + NonSpaces(b)
    decreases |a|
  {
    if a != [] {
      assert (a + b)[1..] == a[1..] + b;
      NonSpacesAppend(a[1..], b);
    } else {
      assert a + b == b;
    }
  }

  lemma {:induction false} NonSpacesOfBlank(s: string)
    requires forall i :: 0 <= i < |s| ==> IsSpace(s[i])
    ensures NonSpaces(s) == []
    decreases |s|
  {
    if s != [] {
      NonSpacesOfBlank(s[1..]);
    }
  }

  lemma {:induction false} NonSpacesOfVisible(s: string)
    requires forall i :: 0 <= i < |s| ==> !IsSpace(s[i])
    ensures NonSpaces(s) == s
    decreases |s|
  {
    if s != [] {
      NonSpacesOfVisible(s[1..]);
      assert s == [s[0]] + s[1..];
    }
  }

  lemma VisibleThenSpace(w: string)
    requires forall i :: 0 <= i < |w| ==> !IsSpace(w[i])
    ensures NonSpaces(w + " ") == w
  {
    NonSpacesOfVisible(w);
    NonSpacesAppend(w, " ");
    NonSpacesOfBlank(" ");
  }

  /** Cutting whitespace edges keeps every other character. */
  lemma StripKeepsContent(s: string)
    ensures NonSpaces(Strip(s)) == NonSpaces(s)
  {
    NonSpacesOfSlice(s, Strip(s), LeadingSpace(s));
  }

  /** A slice with only whitespace around it holds all the visible characters. */
  lemma NonSpacesOfSlice(s: string, t: string, a: nat)
    requires a + |t| <= |s| && t == s[a..a + |t|]
    requires forall i :: 0 <= i < a ==> IsSpace(s[i])
    requires forall i :: a + |t| <= i < |s| ==> IsSpace(s[i])
    ensures NonSpaces(s) == NonSpaces(t)
  {
    var b := a + |t|;
    SplitThree(s, a, b);
    NonSpacesOfPadded(s[..a], t, s[b..]);
  }

  lemma SplitThree(s: string, a: nat, b: nat)
    requires a <= b <= |s|
    ensures s == s[..a] + s[a..b] + s[b..]
  {
  }

  lemma NonSpacesOfPadded(head: string, r: string, tail: string)
    requires forall i :: 0 <= i < |head| ==> IsSpace(head[i])
    requires forall i :: 0 <= i < |tail| ==> IsSpace(tail[i])
    ensures NonSpaces(head + r + tail) == NonSpaces(r)
  {
    NonSpacesAppend(head + r, tail);
    NonSpacesAppend(head, r);
    NonSpacesOfBlank(head);
    NonSpacesOfBlank(tail);
  }

  /** `re.sub(r'\s+', ' ', s)`: every maximal run of whitespace becomes one space. */
  function Collapse(s: string): (r: string)
    ensures SingleSpaced(r)
    ensures (|r| > 0) == (|s| > 0)
    ensures |r| > 0 ==> IsSpace(r[0]) == IsSpace(s[0])
    decreases |s|
  {
    if s == [] then []
    else if IsSpace(s[0]) then " " + Collapse(LStrip(s[1..]))
    else [s[0]] + Collapse(s[1..])
  }

  /** Collapsing whitespace never loses or reorders a visible character. */
  lemma {:induction false} CollapseKeepsContent(s: string)
    ensures NonSpaces(Collapse(s)) == NonSpaces(s)
    decreases |s|
  {
    if s == [] {
    } else if IsSpace(s[0]) {
      var rest := LStrip(s[1..]);
      CollapseKeepsContent(rest);
      NonSpacesAppend(" ", Collapse(rest));
      LStripKeepsContent(s[1..]);
    } else {
      CollapseKeepsContent(s[1..]);
      NonSpacesAppend([s[0]], Collapse(s[1..]));
    }
  }

  /** Cutting leading whitespace keeps every other character. */
  lemma LStripKeepsContent(s: string)
    ensures NonSpaces(LStrip(s)) == NonSpaces(s)
  {
    NonSpacesDrop(s, LeadingSpace(s));
  }

  lemma {:induction false} NonSpacesDrop(s: string, a: nat)
    requires a <= |s| && forall i :: 0 <= i < a ==> IsSpace(s[i])
    ensures NonSpaces(s) == NonSpaces(s[a..])
    decreases a
  {
    if a > 0 {
      NonSpacesDrop(s[1..], a - 1);
      assert s[1..][a - 1..] == s[a..];
    }
  }

  /** A string already in single-spaced form is left as it is, so collapsing is idempotent. */
  lemma {:induction false} CollapseFixesSingleSpaced(s: string)
    requires SingleSpaced(s)
    ensures Collapse(s) == s
    decreases |s|
  {
    if s != [] {
      SingleSpacedTail(s);
      CollapseFixesSingleSpaced(s[1..]);
      if IsSpace(s[0]) {
        SpaceThenVisible(s);
      }
      ConsTail(s);
    }
  }

  lemma SingleSpacedTail(s: string)
    requires SingleSpaced(s) && s != []
    ensures SingleSpaced(s[1..])
  {
    assert forall i :: 0 <= i < |s| - 1 ==> s[1..][i] == s[i + 1];
  }

  /** In a single-spaced string a leading space is a plain space with nothing left to skip after it. */
  lemma SpaceThenVisible(s: string)
    requires SingleSpaced(s) && s != [] && IsSpace(s[0])
    ensures s[0] == ' ' && LStrip(s[1..]) == s[1..]
  {
    assert |s| > 1 ==> s[1..][0] == s[1] && !IsSpace(s[1]);
  }

  lemma ConsTail<T>(s: seq<T>)
    requires s != []
    ensures s == [s[0]] + s[1..]
  {
  }

  lemma CollapseIdempotent(s: string)
    ensures Collapse(Collapse(s)) == Collapse(s)
  {
    CollapseFixesSingleSpaced(Collapse(s));
  }

  /** A slice of a single-spaced string is single-spaced. */
  lemma SingleSpacedSlice(s: string, t: string, a: nat)
    requires SingleSpaced(s) && a + |t| <= |s| && t == s[a..a + |t|]
    ensures SingleSpaced(t)
  {
    assert forall i :: 0 <= i < |t| ==> t[i] == s[a + i];
  }

  /** Stripping a single-spaced string keeps it single-spaced. */
  lemma StripSingleSpaced(s: string)
    requires SingleSpaced(s)
    ensures SingleSpaced(Strip(s))
  {
    SingleSpacedSlice(s, Strip(s), LeadingSpace(s));
  }

  /** Stripping a string without whitespace edges leaves it as it is. */
  lemma StripNoEdge(s: string)
    requires NoEdgeSpace(s)
    ensures Strip(s) == s
  {
  }

  /** The last visible character of a string without whitespace edges is its last character. */
  lemma NonSpacesLast(s: string)
    requires NoEdgeSpace(s) && s != []
    ensures NonSpaces(s) != [] && NonSpaces(s)[|NonSpaces(s)| - 1] == s[|s| - 1]
  {
    var n := |s| - 1;
    assert s == s[..n] + [s[n]];
    NonSpacesAppend(s[..n], [s[n]]);
  }

  // ---------------------------------------------------------------------------
  // Words: Python's `s.split()` with no argument

  /** How many visible characters `s` starts with. */
  function WordLength(s: string): (n: nat)
    ensures n <= |s|
    ensures forall i :: 0 <= i < n ==> !IsSpace(s[i])
    ensures n < |s| ==> IsSpace(s[n])
    decreases |s|
  {
    if s != [] && !IsSpace(s[0]) then 1 + WordLength(s[1..]) else 0
  }

  /** `s.split()`: the maximal runs of visible characters of `s`, in order. */
  function Words(s: string): seq<string>
    decreases |s|
  {
    var t := LStrip(s);
    if t == [] then []
    else
      var k := WordLength(t);
      assert k > 0;
      [t[..k]] + Words(t[k..])
  }

  /** The words `ws` with `c` glued to the end of the last one, or `c` alone when there is none. */
  function GlueLast(ws: seq<string>, c: char): seq<string>
  {
    if ws == [] then [[c]] else ws[..|ws| - 1] + [ws[|ws| - 1] + [c]]
  }

  /** A word that stops inside `t` stops there in any extension of `t`. */
  lemma {:induction false} WordLengthAppend(t: string, w: string)
    requires WordLength(t) < |t|
    ensures WordLength(t + w) == WordLength(t)
    decreases |t|
  {
    if !IsSpace(t[0]) {
      assert (t + w)[1..] == t[1..] + w;
      WordLengthAppend(t[1..], w);
    }
  }

  /** A word that runs to the end of `t` goes on into what follows. */
  lemma {:induction false} WordLengthFull(t: string, w: string)
    requires WordLength(t) == |t|
    ensures WordLength(t + w) == |t| + WordLength(w)
    decreases |t|
  {
    if t == [] {
      assert t + w == w;
    } else {
      assert (t + w)[1..] == t[1..] + w;
      WordLengthFull(t[1..], w);
    }
  }

  lemma WordLengthOne(c: char)
    requires !IsSpace(c)
    ensures WordLength([c]) == 1
  {
    assert [c][1..] == [];
  }

  /** Slicing around a character put in front. */
  lemma ConsSlices(c: char, x: string, k: nat)
    requires k <= |x|
    ensures ([c] + x)[..k + 1] == [c] + x[..k] && ([c] + x)[k + 1..] == x[k..]
  {
  }

  /** Slicing around text put behind. */
  lemma SnocSlices(u: string, w: string, k: nat)
    requires k <= |u|
    ensures (u + w)[..k] == u[..k] && (u + w)[k..] == u[k..] + w
  {
  }

  /** Text that starts with a visible character is its own `lstrip`. */
  lemma LStripFixed(t: string)
    requires t == [] || !IsSpace(t[0])
    ensures LStrip(t) == t
  {
    assert LeadingSpace(t) == 0;
  }

  lemma LStripSpace(s: string)
    requires s != [] && IsSpace(s[0])
    ensures LStrip(s) == LStrip(s[1..])
  {
    assert s[1..][LeadingSpace(s[1..])..] == s[1 + LeadingSpace(s[1..])..];
  }

  /** A leading whitespace character separates no word. */
  lemma WordsSpace(s: string)
    requires s != [] && IsSpace(s[0])
    ensures Words(s) == Words(s[1..])
  {
    LStripSpace(s);
  }

  lemma WordsOfLStrip(s: string)
    ensures Words(LStrip(s)) == Words(s)
  {
    LStripFixed(LStrip(s));
  }

  lemma {:induction false} WordsLeading(h: string, y: string)
    requires forall i :: 0 <= i < |h| ==> IsSpace(h[i])
    ensures Words(h + y) == Words(y)
    decreases |h|
  {
    if h != [] {
      WordsSpace(h + y);
      assert (h + y)[1..] == h[1..] + y;
      WordsLeading(h[1..], y);
    } else {
      assert h + y == y;
    }
  }

  lemma WordsBlank(s: string)
    requires forall i :: 0 <= i < |s| ==> IsSpace(s[i])
    ensures Words(s) == []
  {
    assert LeadingSpace(s) == |s|;
  }

  /** The words of text that starts with a visible character: its first run, then the rest. */
  lemma WordsVisible(t: string)
    requires t != [] && !IsSpace(t[0])
    ensures WordLength(t) > 0
    ensures Words(t) == [t[..WordLength(t)]] + Words(t[WordLength(t)..])
  {
    LStripFixed(t);
  }

  /** A visible character followed by text that does not continue its word. */
  lemma WordsConsApart(c: char, x: string)
    requires !IsSpace(c) && (x == [] || IsSpace(x[0]))
    ensures Words([c] + x) == [[c]] + Words(x)
  {
    WordLengthOne(c);
    WordLengthFull([c], x);
    WordsVisible([c] + x);
    ConsSlices(c, x, 0);
  }

  /** A visible character followed by text that continues its word. */
  lemma WordsConsJoined(c: char, x: string)
    requires !IsSpace(c) && x != [] && !IsSpace(x[0])
    ensures Words(x) != []
    ensures Words([c] + x) == [[c] + Words(x)[0]] + Words(x)[1..]
  {
    var k := WordLength(x);
    WordsVisible(x);
    WordLengthOne(c);
    WordLengthFull([c], x);
    WordsConsStep(c, x, k);
    Regroup(c, x[..k], Words(x[k..]), Words(x), Words([c] + x));
  }

  /** The first word of `[c] + x` is `c` followed by the first word of `x`. */
  lemma WordsConsStep(c: char, x: string, k: nat)
    requires !IsSpace(c) && k <= |x| && WordLength([c] + x) == k + 1
    ensures Words([c] + x) == [[c] + x[..k]] + Words(x[k..])
  {
    WordsVisible([c] + x);
    ConsSlices(c, x, k);
  }

  lemma Regroup(c: char, a: string, rest: seq<string>, w1: seq<string>, w2: seq<string>)
    requires w1 == [a] + rest && w2 == [[c] + a] + rest
    ensures w1 != [] && w2 == [[c] + w1[0]] + w1[1..]
  {
    assert w1[1..] == rest;
  }

  /** Collapsing whitespace runs keeps the words: splitting the collapsed text
      gives the words of the original. */
  lemma {:induction false} CollapseWords(s: string)
    ensures Words(Collapse(s)) == Words(s)
    decreases |s|
  {
    if s == [] {
    } else if IsSpace(s[0]) {
      CollapseWords(LStrip(s[1..]));
      CollapseWordsSpace(s);
    } else {
      CollapseWords(s[1..]);
      CollapseWordsVisible(s);
    }
  }

  lemma CollapseWordsSpace(s: string)
    requires s != [] && IsSpace(s[0])
    requires Words(Collapse(LStrip(s[1..]))) == Words(LStrip(s[1..]))
    ensures Words(Collapse(s)) == Words(s)
  {
    WordsAfterSpace(Collapse(LStrip(s[1..])));
    WordsOfLStrip(s[1..]);
    WordsSpace(s);
  }

  lemma WordsAfterSpace(x: string)
    ensures Words(" " + x) == Words(x)
  {
    WordsSpace(" " + x);
    assert (" " + x)[1..] == x;
  }

  lemma CollapseWordsVisible(s: string)
    requires s != [] && !IsSpace(s[0])
    requires Words(Collapse(s[1..])) == Words(s[1..])
    ensures Words(Collapse(s)) == Words(s)
  {
    ConsTail(s);
    if s[1..] == [] || IsSpace(s[1..][0]) {
      WordsConsApart(s[0], Collapse(s[1..]));
      WordsConsApart(s[0], s[1..]);
    } else {
      WordsConsJoined(s[0], Collapse(s[1..]));
      WordsConsJoined(s[0], s[1..]);
    }
  }

  /** Collapsing keeps whether the text ends in whitespace. */
  lemma {:induction false} CollapseLast(s: string)
    requires s != []
    ensures Collapse(s) != [] && IsSpace(Collapse(s)[|Collapse(s)| - 1]) == IsSpace(s[|s| - 1])
    decreases |s|
  {
    if IsSpace(s[0]) {
      if LStrip(s[1..]) == [] {
        CollapseLastBlank(s);
      } else {
        CollapseLast(LStrip(s[1..]));
        CollapseLastSpace(s);
      }
    } else if |s| > 1 {
      CollapseLast(s[1..]);
      CollapseLastVisible(s);
    }
  }

  lemma CollapseLastSpace(s: string)
    requires s != [] && IsSpace(s[0]) && LStrip(s[1..]) != []
    requires var c, r := Collapse(LStrip(s[1..])), LStrip(s[1..]); c != [] && IsSpace(c[|c| - 1]) == IsSpace(r[|r| - 1])
    ensures Collapse(s) != [] && IsSpace(Collapse(s)[|Collapse(s)| - 1]) == IsSpace(s[|s| - 1])
  {
    LStripLast(s[1..]);
    LastOfAppend(" ", Collapse(LStrip(s[1..])));
  }

  lemma CollapseLastVisible(s: string)
    requires |s| > 1 && !IsSpace(s[0])
    requires var c := Collapse(s[1..]); c != [] && IsSpace(c[|c| - 1]) == IsSpace(s[|s| - 1])
    ensures Collapse(s) != [] && IsSpace(Collapse(s)[|Collapse(s)| - 1]) == IsSpace(s[|s| - 1])
  {
    LastOfAppend([s[0]], Collapse(s[1..]));
  }

  lemma CollapseLastBlank(s: string)
    requires s != [] && IsSpace(s[0]) && LStrip(s[1..]) == []
    ensures Collapse(s) != [] && IsSpace(Collapse(s)[|Collapse(s)| - 1]) == IsSpace(s[|s| - 1])
  {
    BlankLast(s);
    assert Collapse(s) == " " + Collapse([]);
  }

  lemma BlankLast(s: string)
    requires s != [] && IsSpace(s[0]) && LStrip(s[1..]) == []
    ensures IsSpace(s[|s| - 1])
  {
    assert |s| > 1 ==> s[|s| - 1] == s[1..][|s| - 2];
  }

  lemma LStripLast(x: string)
    requires LStrip(x) != []
    ensures x != [] && LStrip(x)[|LStrip(x)| - 1] == x[|x| - 1]
  {
  }

  /** Trailing whitespace separates no word. */
  lemma {:induction false} WordsTrailing(x: string, w: string)
    requires forall i :: 0 <= i < |w| ==> IsSpace(w[i])
    ensures Words(x + w) == Words(x)
    decreases |x|, 1
  {
    var t := LStrip(x);
    var a := |x| - |t|;
    if t == [] {
      WordsBlank(x);
      WordsBlank(x + w);
    } else {
      assert x == x[..a] + t;
      assert x + w == x[..a] + (t + w);
      WordsLeading(x[..a], t + w);
      WordsLeading(x[..a], t);
      WordsTrailingVisible(t, w);
    }
  }

  lemma {:induction false} WordsTrailingVisible(t: string, w: string)
    requires t != [] && !IsSpace(t[0])
    requires forall i :: 0 <= i < |w| ==> IsSpace(w[i])
    ensures Words(t + w) == Words(t)
    decreases |t|, 0
  {
    var k := WordLength(t);
    WordsVisible(t);
    if k < |t| {
      WordLengthAppend(t, w);
    } else {
      WordLengthFull(t, w);
    }
    WordsVisible(t + w);
    SnocSlices(t, w, k);
    WordsTrailing(t[k..], w);
  }

  /** Stripping keeps the words. */
  lemma StripWords(x: string)
    ensures Words(Strip(x)) == Words(x)
  {
    var r := Strip(x);
    var a := LeadingSpace(x);
    SplitThree(x, a, a + |r|);
    WordsPadded(x[..a], r, x[a + |r|..]);
  }

  /** Whitespace on both sides of `r` separates no word. */
  lemma WordsPadded(h: string, r: string, w: string)
    requires forall i :: 0 <= i < |h| ==> IsSpace(h[i])
    requires forall i :: 0 <= i < |w| ==> IsSpace(w[i])
    ensures Words(h + r + w) == Words(r)
  {
    WordsTrailing(h + r, w);
    WordsLeading(h, r);
  }

  /** A visible character glued after the last visible character of `t` joins its last word. */
  lemma {:induction false} WordsSnoc(t: string, c: char)
    requires t != [] && !IsSpace(t[|t| - 1]) && !IsSpace(c)
    ensures Words(t) != [] && Words(t + [c]) == GlueLast(Words(t), c)
    decreases |t|, 1
  {
    var u := LStrip(t);
    var a := |t| - |u|;
    assert u != [];
    assert t == t[..a] + u;
    assert t + [c] == t[..a] + (u + [c]);
    WordsLeading(t[..a], u + [c]);
    WordsLeading(t[..a], u);
    LStripLast(t);
    WordsSnocVisible(u, c);
  }

  lemma {:induction false} WordsSnocVisible(u: string, c: char)
    requires u != [] && !IsSpace(u[0]) && !IsSpace(u[|u| - 1]) && !IsSpace(c)
    ensures Words(u) != [] && Words(u + [c]) == GlueLast(Words(u), c)
    decreases |u|, 0
  {
    var k := WordLength(u);
    WordsVisible(u);
    if k == |u| {
      OneWordSnoc(u, c);
    } else {
      var rest := u[k..];
      WordLengthAppend(u, [c]);
      WordsVisible(u + [c]);
      SnocSlices(u, [c], k);
      assert rest[|rest| - 1] == u[|u| - 1];
      WordsSnoc(rest, c);
      SnocUnderCons(u[..k], Words(rest), c);
    }
  }

  lemma OneWordSnoc(u: string, c: char)
    requires u != [] && !IsSpace(u[0]) && WordLength(u) == |u| && !IsSpace(c)
    ensures Words(u) == [u] && Words(u + [c]) == [u + [c]]
  {
    OneWord(u);
    WordLengthOne(c);
    WordLengthFull(u, [c]);
    assert (u + [c])[0] == u[0];
    OneWord(u + [c]);
  }

  /** Text of visible characters only is one word. */
  lemma OneWord(u: string)
    requires u != [] && !IsSpace(u[0]) && WordLength(u) == |u|
    ensures Words(u) == [u]
  {
    WordsVisible(u);
    WholeSlices(u);
    WordsNil();
  }

  lemma WholeSlices(u: string)
    ensures u[..|u|] == u && u[|u|..] == []
  {
  }

  lemma WordsNil()
    ensures Words([]) == []
  {
    assert LStrip([]) == [];
  }

  lemma SnocUnderCons(w: string, ws: seq<string>, c: char)
    requires ws != []
    ensures [w] + GlueLast(ws, c) == GlueLast([w] + ws, c)
  {
  }

  /** Python's `str.upper` on ASCII letters; every other character is kept. */
  function UpperChar(c: char): char
  {
    if 'a' <= c <= 'z' then (c as int - 32) as char else c
  }

  function Upper(s: string): (r: string)
    ensures |r| == |s|
    ensures forall i :: 0 <= i < |s| ==> r[i] == UpperChar(s[i])
    decreases |s|
  {
    if s == [] then [] else [UpperChar(s[0])] + Upper(s[1..])
  }

  /** `s.replace('#', '# ')`. */
  function ReplaceHash(s: string): (r: string)
    ensures forall i :: 0 <= i < |r| && r[i] == '#' ==> i + 1 < |r| && r[i + 1] == ' '
    decreases |s|
  {
    if s == [] then [] else (if s[0] == '#' then "# " else [s[0]]) + ReplaceHash(s[1..])
  }

  /** The inverse of `ReplaceHash`: the space that follows each `#` is dropped. */
  function UndoReplaceHash(r: string): string
    decreases |r|
  {
    if r == [] then []
    else if |r| >= 2 && r[0] == '#' && r[1] == ' ' then "#" + UndoReplaceHash(r[2..])
    else [r[0]] + UndoReplaceHash(r[1..])
  }

  lemma {:induction false} ReplaceHashRoundTrip(s: string)
    ensures UndoReplaceHash(ReplaceHash(s)) == s
    decreases |s|
  {
    if s != [] {
      ReplaceHashRoundTrip(s[1..]);
      var r := ReplaceHash(s);
      if s[0] == '#' {
        assert r[2..] == ReplaceHash(s[1..]);
      } else {
        assert r[1..] == ReplaceHash(s[1..]);
      }
    }
  }

  lemma {:induction false} ReplaceHashAppend(a: string, b: string)
    ensures ReplaceHash(a + b) == ReplaceHash(a) + ReplaceHash(b)
    decreases |a|
  {
    if a == [] {
      assert a + b == b;
    } else {
      assert (a + b)[1..] == a[1..] + b;
      ReplaceHashAppend(a[1..], b);
    }
  }

  /** Python's `sep.join(parts)`. */
  function Join(sep: string, parts: seq<string>): string
    decreases |parts|
  {
    if |parts| == 0 then ""
    else if |parts| == 1 then parts[0]
    else Join(sep, parts[..|parts| - 1]) + sep + parts[|parts| - 1]
  }

  /** The text of `lines`, each one terminated by a newline. */
  function Unlines(lines: seq<string>): string
    decreases |lines|
  {
    if lines == [] then "" else lines[0] + "\n" + Unlines(lines[1..])
  }

  lemma {:induction false} UnlinesAppend(a: seq<string>, b: seq<string>)
    ensures Unlines(a + b) == Unlines(a) + Unlines(b)
    decreases |a|
  {
    if a == [] {
      assert a + b == b;
    } else {
      assert (a + b)[1..] == a[1..] + b;
      UnlinesAppend(a[1..], b);
    }
  }

  /** Writing one more line after `start + Unlines(ls)`. */
  lemma UnlinesSnoc(start: string, ls: seq<string>, l: string)
    ensures start + Unlines(ls) + l + "\n" == start + Unlines(ls + [l])
  {
    UnlinesAppend(ls, [l]);
    UnlinesOne(l);
  }

  /** Writing one line followed by a blank line. */
  lemma UnlinesSnocBlank(start: string, ls: seq<string>, l: string)
    ensures start + Unlines(ls) + l + "\n\n" == start + Unlines(ls + [l, ""])
  {
    UnlinesAppend(ls, [l, ""]);
    UnlinesPair(l);
  }

  lemma UnlinesPair(l: string)
    ensures Unlines([l, ""]) == l + "\n\n"
  {
    assert [l, ""][1..] == [""];
    UnlinesOne("");
  }

  /** Writing the first line after `start`. */
  lemma UnlinesFirst(start: string, l: string)
    ensures start + l + "\n" == start + Unlines([l])
  {
    UnlinesOne(l);
  }

  /** A final blank line adds just its newline. */
  lemma UnlinesBlankEnd(ls: seq<string>)
    ensures Unlines(ls + [""]) == Unlines(ls) + "\n"
  {
    UnlinesAppend(ls, [""]);
    UnlinesOne("");
  }

  /** `s[:-1]` after a final blank line, then one more line: the blank line is
      gone and the new line takes its place. */
  lemma CutTrailingBlank(start: string, ls: seq<string>, c: string)
    ensures var out := start + Unlines(ls + [""]);
      |out| > 0 && out[..|out| - 1] + c + "\n" == start + Unlines(ls + [c])
  {
    var x := start + Unlines(ls);
    UnlinesBlankEnd(ls);
    assert start + (Unlines(ls) + "\n") == start + Unlines(ls) + "\n";
    DropNewline(x);
    UnlinesSnoc(start, ls, c);
  }

  /** `s[:-1]` on a text that ends with a newline removes that newline. */
  lemma DropNewline(s: string)
    ensures (s + "\n")[..|s + "\n"| - 1] == s
  {
  }

  /** Index of the first newline of `s`, or `|s|` when there is none. */
  function NewlineIndex(s: string): (k: nat)
    ensures k <= |s|
    ensures k < |s| ==> s[k] == '\n'
    ensures forall i :: 0 <= i < k ==> s[i] != '\n'
    decreases |s|
  {
    if s == [] then 0 else if s[0] == '\n' then 0 else 1 + NewlineIndex(s[1..])
  }

  /** The lines of `s`: it is cut at every newline, and a final newline ends
      the last line rather than opening an empty one. */
  function Lines(s: string): seq<string>
    decreases |s|
  {
    if s == [] then []
    else
      var k := NewlineIndex(s);
      if k == |s| then [s] else [s[..k]] + Lines(s[k + 1..])
  }

  /** Reading the lines back from `Unlines` gives the lines that were written. */
  lemma {:induction false} LinesOfUnlines(lines: seq<string>)
    requires forall i :: 0 <= i < |lines| ==> NoNewline(lines[i])
    ensures Lines(Unlines(lines)) == lines
    decreases |lines|
  {
    if lines != [] {
      LinesCons(lines[0], Unlines(lines[1..]));
      LinesOfUnlines(lines[1..]);
      ConsTail(lines);
    }
  }

  /** A first line and its newline are read back as that line. */
  lemma LinesCons(l: string, rest: string)
    requires NoNewline(l)
    ensures Lines(l + "\n" + rest) == [l] + Lines(rest)
  {
    var s := l + "\n" + rest;
    assert s[|l|] == '\n';
    assert forall i :: 0 <= i < |l| ==> s[i] == l[i];
    assert NewlineIndex(s) == |l|;
    assert s[..|l|] == l;
    assert s[|l| + 1..] == rest;
  }

  /** Reading back text whose last line lacks its newline. */
  lemma {:induction false} LinesUnterminated(init: seq<string>, last: string)
    requires forall i :: 0 <= i < |init| ==> NoNewline(init[i])
    requires NoNewline(last) && last != []
    ensures Lines(Unlines(init) + last) == init + [last]
    decreases |init|
  {
    if init == [] {
      LinesSingle(last);
    } else {
      var rest := Unlines(init[1..]) + last;
      RegroupFirstLine(init[0], Unlines(init[1..]), last);
      LinesCons(init[0], rest);
      LinesUnterminated(init[1..], last);
      ConsSnoc(init, last);
    }
  }

  /** A text without newlines is one line. */
  lemma LinesSingle(last: string)
    requires NoNewline(last) && last != []
    ensures Lines(Unlines([]) + last) == [] + [last]
  {
    assert Unlines([]) + last == last;
    assert NewlineIndex(last) == |last|;
  }

  lemma RegroupFirstLine(l: string, u: string, last: string)
    ensures l + "\n" + u + last == l + "\n" + (u + last)
  {
  }

  lemma ConsSnoc<T>(init: seq<T>, last: T)
    requires init != []
    ensures init + [last] == [init[0]] + (init[1..] + [last])
  {
  }

  /** `rstrip` on text whose last line ends in a visible character removes
      just the final newline, and the lines read back are the lines written. */
  lemma RStripUnlines(ls: seq<string>)
    requires ls != []
    requires forall i :: 0 <= i < |ls| ==> NoNewline(ls[i])
    requires ls[|ls| - 1] != [] && !IsSpace(ls[|ls| - 1][|ls[|ls| - 1]| - 1])
    ensures Lines(RStrip(Unlines(ls))) == ls
  {
    var init, last := ls[..|ls| - 1], ls[|ls| - 1];
    UnlinesLast(ls);
    LastOfAppend(Unlines(init), last);
    RStripNewline(Unlines(init) + last);
    LinesUnterminated(init, last);
    InitLast(ls);
  }

  lemma UnlinesLast(ls: seq<string>)
    requires ls != []
    ensures Unlines(ls) == Unlines(ls[..|ls| - 1]) + ls[|ls| - 1] + "\n"
  {
    InitLast(ls);
    UnlinesAppend(ls[..|ls| - 1], [ls[|ls| - 1]]);
    UnlinesOne(ls[|ls| - 1]);
  }

  lemma UnlinesOne(l: string)
    ensures Unlines([l]) == l + "\n"
  {
    assert Unlines([l]) == l + "\n" + Unlines([]);
  }

  lemma InitLast<T>(ls: seq<T>)
    requires ls != []
    ensures ls[..|ls| - 1] + [ls[|ls| - 1]] == ls
  {
  }

  lemma LastOfAppend(a: string, b: string)
    requires b != []
    ensures (a + b)[|a + b| - 1] == b[|b| - 1]
  {
  }

  /** `rstrip` removes a newline after a visible character and nothing else. */
  lemma RStripNewline(x: string)
    requires x != [] && !IsSpace(x[|x| - 1])
    ensures RStrip(x + "\n") == x
  {
    var y := x + "\n";
    assert y[..|y| - 1] == x;
    assert TrailingStart(y) == |x|;
  }
}
