/**
 * The three pure string helpers of src/vexy_markliff/utils.py: whitespace
 * normalisation, the language-code check and naive sentence splitting,
 * together with the Python string primitives they are built from
 * (`str.strip`, `str.isspace`, the `\s` class of a `str` regex).
 */
module TextUtils {

  // ---------------------------------------------------------------------
  // Whitespace, as Python sees it
  // ---------------------------------------------------------------------

  /** The code points for which Python's `str.isspace()` holds; the `\s`
      class of a `str` regular expression matches exactly these: U+0009 to
      U+000D, U+001C to U+001F, the space, U+0085, U+00A0, U+1680, U+2000 to
      U+200A, U+2028, U+2029, U+202F, U+205F and U+3000. */
  const Whitespace: set<char> := {
    '\t', '\n', '\U{B}', '\U{C}', '\r', '\U{1C}', '\U{1D}', '\U{1E}', '\U{1F}', ' ',
    '\U{85}', '\U{A0}', '\U{1680}', '\U{2000}', '\U{2001}', '\U{2002}', '\U{2003}',
    '\U{2004}', '\U{2005}', '\U{2006}', '\U{2007}', '\U{2008}', '\U{2009}', '\U{200A}',
    '\U{2028}', '\U{2029}', '\U{202F}', '\U{205F}', '\U{3000}'
  }

  predicate IsSpace(c: char) {
    c in Whitespace
  }

  /** `not s or not s.strip()`: empty, or whitespace only. */
  predicate IsBlank(s: string) {
    forall i :: 0 <= i < |s| ==> IsSpace(s[i])
  }

  /** The non-whitespace characters of `s`, in order. */
  function NonSpace(s: string): string {
    if s == [] then [] else (if IsSpace(s[0]) then [] else [s[0]]) + NonSpace(s[1..])
  }

  lemma {:induction false} NonSpaceAppend(a: string, b: string)
    ensures NonSpace(a + b) == NonSpace(a) + NonSpace(b)
  {
    if a != [] {
      assert (a + b)[1..] == a[1..] + b;
      NonSpaceAppend(a[1..], b);
    } else {
      assert a + b == b;
    }
  }

  lemma {:induction false} NonSpaceEmptyIffBlank(s: string)
    ensures NonSpace(s) == [] <==> IsBlank(s)
  {
    if s != [] {
      NonSpaceEmptyIffBlank(s[1..]);
      assert IsBlank(s) <==> IsSpace(s[0]) && IsBlank(s[1..]) by {
        if IsBlank(s) {
          assert forall i :: 0 <= i < |s[1..]| ==> s[1..][i] == s[i + 1];
        }
        if IsSpace(s[0]) && IsBlank(s[1..]) {
          forall i | 0 <= i < |s| ensures IsSpace(s[i]) {
            if i > 0 { assert s[i] == s[1..][i - 1]; }
          }
        }
      }
    }
  }

  // ---------------------------------------------------------------------
  // str.strip()
  // ---------------------------------------------------------------------

  /** `s.lstrip()`: the suffix of `s` left after its leading whitespace. */
  function TrimLeft(s: string): (r: string)
    ensures |r| <= |s| && r == s[|s| - |r|..]
    ensures r == [] || !IsSpace(r[0])
  {
    if s != [] && IsSpace(s[0]) then TrimLeft(s[1..]) else s
  }

  /** `s.rstrip()`: the prefix of `s` left before its trailing whitespace. */
  function TrimRight(s: string): (r: string)
    ensures |r| <= |s| && r == s[..|r|]
    ensures r == [] || !IsSpace(r[|r| - 1])
  {
    if s != [] && IsSpace(s[|s| - 1]) then TrimRight(s[..|s| - 1]) else s
  }

  /** lstrip drops a blank prefix. */
  lemma {:induction false} TrimLeftDropsBlank(s: string)
    ensures IsBlank(s[..|s| - |TrimLeft(s)|])
  {
    if s != [] && IsSpace(s[0]) {
      TrimLeftDropsBlank(s[1..]);
      var k := |s| - |TrimLeft(s)|;
      forall i | 0 <= i < k ensures IsSpace(s[..k][i]) {
        if i > 0 { assert s[..k][i] == s[1..][..k - 1][i - 1]; }
      }
    }
  }

  /** rstrip drops a blank suffix. */
  lemma {:induction false} TrimRightDropsBlank(s: string)
    ensures IsBlank(s[|TrimRight(s)|..])
  {
    if s != [] && IsSpace(s[|s| - 1]) {
      var init := s[..|s| - 1];
      TrimRightDropsBlank(init);
      var k := |TrimRight(s)|;
      forall i | k <= i < |s| ensures IsSpace(s[i]) {
        if i < |s| - 1 { assert s[i] == init[k..][i - k]; }
      }
    }
  }

  /** A string that starts with a visible character has visible characters. */
  lemma NonSpaceOfVisibleHead(s: string)
    requires s != [] && !IsSpace(s[0])
    ensures NonSpace(s) != []
  {
    assert NonSpace(s) == [s[0]] + NonSpace(s[1..]);
  }

  /** lstrip drops whitespace only. */
  lemma {:induction false} TrimLeftKeepsNonSpace(s: string)
    ensures NonSpace(TrimLeft(s)) == NonSpace(s)
  {
    if s != [] && IsSpace(s[0]) {
      TrimLeftKeepsNonSpace(s[1..]);
    }
  }

  /** rstrip drops whitespace only. */
  lemma {:induction false} TrimRightKeepsNonSpace(s: string)
    ensures NonSpace(TrimRight(s)) == NonSpace(s)
  {
    if s != [] && IsSpace(s[|s| - 1]) {
      var init := s[..|s| - 1];
      TrimRightKeepsNonSpace(init);
      assert s == init + [s[|s| - 1]];
      NonSpaceAppend(init, [s[|s| - 1]]);
    }
  }

  /** `r` is the slice `s[i..j]` and everything of `s` outside it is whitespace. */
  predicate SliceBetweenBlanks(s: string, r: string, i: int, j: int) {
    0 <= i <= j <= |s| && r == s[i..j] && IsBlank(s[..i]) && IsBlank(s[j..])
  }

  /** lstrip then rstrip keeps the slice between a blank prefix and a blank suffix. */
  lemma TrimBothIsSlice(s: string)
    ensures exists i, j :: SliceBetweenBlanks(s, TrimRight(TrimLeft(s)), i, j)
  {
    var l := TrimLeft(s);
    var r := TrimRight(l);
    var i := |s| - |l|;
    var j := i + |r|;
    TrimLeftDropsBlank(s);
    TrimRightDropsBlank(l);
    assert IsBlank(s[..i]);
    assert IsBlank(l[|r|..]);
    assert l == s[i..];
    assert r == s[i..j] by {
      assert r == l[..|r|];
    }
    assert s[j..] == l[|r|..];
    assert SliceBetweenBlanks(s, r, i, j);
  }

  /** `s.strip()`: the slice of `s` left once its leading and trailing
      whitespace are cut off, so no whitespace at either end, the same
      visible characters, and empty exactly when `s` is blank. */
  function Strip(s: string): (r: string)
    ensures exists i, j :: SliceBetweenBlanks(s, r, i, j)
    ensures r == [] || (!IsSpace(r[0]) && !IsSpace(r[|r| - 1]))
    ensures NonSpace(r) == NonSpace(s)
    ensures r == [] <==> IsBlank(s)
  {
    var l := TrimLeft(s);
    var r := TrimRight(l);
    TrimLeftKeepsNonSpace(s);
    TrimRightKeepsNonSpace(l);
    NonSpaceEmptyIffBlank(s);
    TrimBothIsSlice(s);
    if r != [] then
      assert r[0] == l[0];
      NonSpaceOfVisibleHead(r);
      r
    else r
  }

  // ---------------------------------------------------------------------
  // normalize_whitespace (utils.py:15-24)
  // ---------------------------------------------------------------------

  /** `re.sub(r"\s+", " ", s)`: each maximal run of whitespace becomes one space. */
  function CollapseRuns(s: string): string
    decreases |s|
  {
    if s == [] then []
    else if IsSpace(s[0]) then [' '] + CollapseRuns(TrimLeft(s[1..]))
    else [s[0]] + CollapseRuns(s[1..])
  }

  /** What normalised text looks like: trimmed, no whitespace other than a
      plain space, and never two whitespace characters in a row. */
  predicate IsNormalized(s: string) {
    && (s == [] || (!IsSpace(s[0]) && !IsSpace(s[|s| - 1])))
    && (forall i :: 0 <= i < |s| && IsSpace(s[i]) ==> s[i] == ' ')
    && (forall i :: 0 <= i < |s| - 1 ==> !(IsSpace(s[i]) && IsSpace(s[i + 1])))
  }

  lemma CollapseRunsHead(s: string)
    requires s != []
    ensures CollapseRuns(s) != []
    ensures CollapseRuns(s)[0] == if IsSpace(s[0]) then ' ' else s[0]
  {
  }

  /** lstrip never empties a string that ends in a visible character, and
      keeps that character last. */
  lemma {:induction false} TrimLeftKeepsLast(t: string)
    requires t != [] && !IsSpace(t[|t| - 1])
    ensures TrimLeft(t) != [] && TrimLeft(t)[|TrimLeft(t)| - 1] == t[|t| - 1]
  {
    if IsSpace(t[0]) {
      TrimLeftKeepsLast(t[1..]);
    }
  }

  lemma LastOfCons(x: char, c: string)
    requires c != []
    ensures ([x] + c)[|c|] == c[|c| - 1]
  {
  }

  /** Text that ends in a visible character still ends in it once its runs
      are collapsed. */
  lemma {:induction false} CollapseRunsLast(s: string)
    requires s != [] && !IsSpace(s[|s| - 1])
    ensures CollapseRuns(s) != [] && CollapseRuns(s)[|CollapseRuns(s)| - 1] == s[|s| - 1]
    decreases |s|
  {
    var t := s[1..];
    if IsSpace(s[0]) {
      assert t != [] && t[|t| - 1] == s[|s| - 1];
      TrimLeftKeepsLast(t);
      var rest := TrimLeft(t);
      CollapseRunsLast(rest);
      assert CollapseRuns(s) == [' '] + CollapseRuns(rest);
      LastOfCons(' ', CollapseRuns(rest));
    } else if t == [] {
      assert CollapseRuns(s) == [s[0]] + CollapseRuns(t);
    } else {
      assert t[|t| - 1] == s[|s| - 1];
      CollapseRunsLast(t);
      assert CollapseRuns(s) == [s[0]] + CollapseRuns(t);
      LastOfCons(s[0], CollapseRuns(t));
    }
  }

  lemma {:induction false} CollapseRunsPlainSpaces(s: string)
    ensures forall i :: 0 <= i < |CollapseRuns(s)| && IsSpace(CollapseRuns(s)[i]) ==> CollapseRuns(s)[i] == ' '
    decreases |s|
  {
    if s != [] {
      var rest := if IsSpace(s[0]) then TrimLeft(s[1..]) else s[1..];
      CollapseRunsPlainSpaces(rest);
      var c := CollapseRuns(s);
      var c' := CollapseRuns(rest);
      assert c == [c[0]] + c';
      forall i | 0 < i < |c| ensures c[i] == c'[i - 1] { }
    }
  }

  lemma {:induction false} CollapseRunsNoDoubleSpaces(s: string)
    ensures forall i :: 0 <= i < |CollapseRuns(s)| - 1 ==>
      !(IsSpace(CollapseRuns(s)[i]) && IsSpace(CollapseRuns(s)[i + 1]))
    decreases |s|
  {
    if s != [] {
      var rest := if IsSpace(s[0]) then TrimLeft(s[1..]) else s[1..];
      CollapseRunsNoDoubleSpaces(rest);
      var c := CollapseRuns(s);
      var c' := CollapseRuns(rest);
      assert c == [c[0]] + c';
      if IsSpace(s[0]) && rest != [] {
        CollapseRunsHead(rest);
      }
      forall i | 0 <= i < |c| - 1 ensures !(IsSpace(c[i]) && IsSpace(c[i + 1])) {
        if i > 0 {
          assert c[i] == c'[i - 1] && c[i + 1] == c'[i];
        } else {
          assert c[1] == c'[0];
        }
      }
    }
  }

  lemma {:induction false} CollapseRunsKeepsNonSpace(s: string)
    ensures NonSpace(CollapseRuns(s)) == NonSpace(s)
    decreases |s|
  {
    if s != [] {
      var t := s[1..];
      var head := if IsSpace(s[0]) then ' ' else s[0];
      var rest := if IsSpace(s[0]) then TrimLeft(t) else t;
      CollapseRunsKeepsNonSpace(rest);
      assert CollapseRuns(s) == [head] + CollapseRuns(rest);
      NonSpaceAppend([head], CollapseRuns(rest));
      if IsSpace(s[0]) {
        TrimLeftKeepsNonSpace(t);
      }
    }
  }

  /** Collapsing the runs of a stripped string normalises it. */
  lemma CollapseRunsNormalizes(s: string)
    requires s == [] || (!IsSpace(s[0]) && !IsSpace(s[|s| - 1]))
    ensures IsNormalized(CollapseRuns(s))
  {
    if s != [] {
      CollapseRunsHead(s);
      CollapseRunsLast(s);
    }
    CollapseRunsPlainSpaces(s);
    CollapseRunsNoDoubleSpaces(s);
  }

  /** `s.split()` with no separator, with `cur` the word read so far: the
      maximal runs of non-whitespace characters, in order. */
  function WordsFrom(s: string, cur: string): seq<string>
    decreases |s|
  {
    if s == [] then (if cur == [] then [] else [cur])
    else if IsSpace(s[0]) then (if cur == [] then [] else [cur]) + WordsFrom(s[1..], [])
    else WordsFrom(s[1..], cur + [s[0]])
  }

  /** `s.split()` */
  function Words(s: string): seq<string> {
    WordsFrom(s, [])
  }

  /** A word: non-empty and free of whitespace. */
  predicate IsWord(w: string) {
    w != [] && forall i :: 0 <= i < |w| ==> !IsSpace(w[i])
  }

  lemma TrimLeftUnpadded(t: string)
    requires t == [] || !IsSpace(t[0])
    ensures TrimLeft(t) == t
  {
  }

  /** Leading whitespace, before any word has started, adds no word. */
  lemma {:induction false} WordsOfTrimLeft(s: string)
    ensures WordsFrom(TrimLeft(s), []) == WordsFrom(s, [])
  {
    if s != [] && IsSpace(s[0]) {
      WordsOfTrimLeft(s[1..]);
      LeadingSpaceStep(s);
    }
  }

  lemma LeadingSpaceStep(s: string)
    requires s != [] && IsSpace(s[0])
    ensures TrimLeft(s) == TrimLeft(s[1..])
    ensures WordsFrom(s, []) == WordsFrom(s[1..], [])
  {
    SpaceEndsWord(s, []);
  }

  /** Whitespace closes the word being read, if any. */
  lemma SpaceEndsWord(s: string, cur: string)
    requires s != [] && IsSpace(s[0])
    ensures WordsFrom(s, cur) == (if cur == [] then [] else [cur]) + WordsFrom(s[1..], [])
  {
  }

  /** Trailing whitespace only closes the word being read. */
  lemma {:induction false} WordsOfBlank(b: string, cur: string)
    requires IsBlank(b)
    ensures WordsFrom(b, cur) == if cur == [] then [] else [cur]
  {
    if b != [] {
      assert IsBlank(b[1..]) by {
        forall i | 0 <= i < |b| - 1 ensures IsSpace(b[1..][i]) {
          assert b[1..][i] == b[i + 1];
        }
      }
      WordsOfBlank(b[1..], []);
      assert IsSpace(b[0]);
    }
  }

  /** Trailing whitespace adds no word. */
  lemma {:induction false} WordsAppendBlank(p: string, b: string, cur: string)
    requires IsBlank(b)
    ensures WordsFrom(p + b, cur) == WordsFrom(p, cur)
  {
    if p == [] {
      assert p + b == b;
      WordsOfBlank(b, cur);
    } else {
      assert (p + b)[1..] == p[1..] + b;
      if IsSpace(p[0]) {
        WordsAppendBlank(p[1..], b, []);
      } else {
        WordsAppendBlank(p[1..], b, cur + [p[0]]);
      }
    }
  }

  lemma WordsOfTrimRight(s: string)
    ensures Words(TrimRight(s)) == Words(s)
  {
    var r := TrimRight(s);
    TrimRightDropsBlank(s);
    assert s == r + s[|r|..];
    WordsAppendBlank(r, s[|r|..], []);
  }

  /** Cutting off leading and trailing whitespace keeps the words. */
  lemma WordsOfStrip(text: string)
    ensures Words(Strip(text)) == Words(text)
  {
    WordsOfTrimLeft(text);
    WordsOfTrimRight(TrimLeft(text));
  }

  /** Every piece `split()` gives is a word. */
  lemma {:induction false} WordsAreWords(s: string, cur: string)
    requires forall i :: 0 <= i < |cur| ==> !IsSpace(cur[i])
    ensures forall k :: 0 <= k < |WordsFrom(s, cur)| ==> IsWord(WordsFrom(s, cur)[k])
    decreases |s|
  {
    if s != [] {
      if IsSpace(s[0]) {
        WordsAreWords(s[1..], []);
        var head := if cur == [] then [] else [cur];
        var tail := WordsFrom(s[1..], []);
        forall k | 0 <= k < |head + tail| ensures IsWord((head + tail)[k]) {
          if k >= |head| { assert (head + tail)[k] == tail[k - |head|]; }
        }
      } else {
        WordsAreWords(s[1..], cur + [s[0]]);
      }
    }
  }

  /** The words, read one after the other, are exactly the non-whitespace
      characters, after the word read so far. */
  lemma {:induction false} WordsKeepNonSpace(s: string, cur: string)
    ensures Flatten(WordsFrom(s, cur)) == cur + NonSpace(s)
    decreases |s|
  {
    if s == [] {
      if cur != [] { FlattenSingle(cur); }
    } else if IsSpace(s[0]) {
      WordsKeepNonSpace(s[1..], []);
      var head := if cur == [] then [] else [cur];
      FlattenAppend(head, WordsFrom(s[1..], []));
      if cur != [] { FlattenSingle(cur); }
      assert NonSpace(s) == NonSpace(s[1..]);
    } else {
      WordsKeepNonSpace(s[1..], cur + [s[0]]);
      assert NonSpace(s) == [s[0]] + NonSpace(s[1..]);
    }
  }

  lemma JoinCons(w: string, ws: seq<string>, sep: char)
    requires ws != []
    ensures Join([w] + ws, sep) == w + [sep] + Join(ws, sep)
  {
    assert ([w] + ws)[1..] == ws;
  }

  /** With a word `cur` already read, or none and no whitespace ahead,
      joining the words of text that ends in a non-whitespace character
      gives `cur` followed by the text with its runs collapsed. */
  lemma {:induction false} JoinWordsFrom(s: string, cur: string)
    requires s == [] || !IsSpace(s[|s| - 1])
    requires cur != [] || s == [] || !IsSpace(s[0])
    ensures Join(WordsFrom(s, cur), ' ') == cur + CollapseRuns(s)
    decreases |s|
  {
    if s == [] {
    } else if !IsSpace(s[0]) {
      JoinWordsFrom(s[1..], cur + [s[0]]);
      JoinWordsVisibleStep(s, cur);
    } else {
      GapShape(s);
      JoinWordsFrom(TrimLeft(s[1..]), []);
      JoinWordsGapStep(s, cur);
    }
  }

  lemma JoinWordsVisibleStep(s: string, cur: string)
    requires s != [] && !IsSpace(s[0])
    requires Join(WordsFrom(s[1..], cur + [s[0]]), ' ') == cur + [s[0]] + CollapseRuns(s[1..])
    ensures Join(WordsFrom(s, cur), ' ') == cur + CollapseRuns(s)
  {
    assert WordsFrom(s, cur) == WordsFrom(s[1..], cur + [s[0]]);
    assert CollapseRuns(s) == [s[0]] + CollapseRuns(s[1..]);
    Regroup(Join(WordsFrom(s, cur), ' '), cur, s[0], CollapseRuns(s[1..]), CollapseRuns(s));
  }

  lemma Regroup(x: string, a: string, h: char, c: string, d: string)
    requires x == a + [h] + c && d == [h] + c
    ensures x == a + d
  {
  }

  /** Past a run of whitespace, the rest of text that ends in a
      non-whitespace character is non-empty, starts and ends with a
      non-whitespace character, and the run collapses to one space. */
  lemma GapShape(s: string)
    requires s != [] && IsSpace(s[0]) && !IsSpace(s[|s| - 1])
    ensures var u := TrimLeft(s[1..]);
      && |u| < |s| && u != [] && !IsSpace(u[0]) && !IsSpace(u[|u| - 1])
      && CollapseRuns(s) == [' '] + CollapseRuns(u)
  {
    var t := s[1..];
    assert t != [] && t[|t| - 1] == s[|s| - 1];
    TrimLeftKeepsLast(t);
  }

  lemma JoinWordsGapStep(s: string, cur: string)
    requires s != [] && IsSpace(s[0]) && !IsSpace(s[|s| - 1])
    requires cur != []
    requires var u := TrimLeft(s[1..]);
      Join(WordsFrom(u, []), ' ') == CollapseRuns(u)
    ensures Join(WordsFrom(s, cur), ' ') == cur + CollapseRuns(s)
  {
    var u := TrimLeft(s[1..]);
    GapShape(s);
    WordsOfTrimLeft(s[1..]);
    var ws := WordsFrom(u, []);
    CollapseRunsHead(u);
    assert ws != [];
    SpaceEndsWord(s, cur);
    JoinCons(cur, ws, ' ');
    Regroup(Join(WordsFrom(s, cur), ' '), cur, ' ', CollapseRuns(u), CollapseRuns(s));
  }

  /** On text without whitespace at either end, collapsing the runs joins
      the words with single spaces. */
  lemma CollapseRunsJoinsWords(s: string)
    requires s == [] || (!IsSpace(s[0]) && !IsSpace(s[|s| - 1]))
    ensures CollapseRuns(s) == Join(Words(s), ' ')
  {
    JoinWordsFrom(s, []);
  }

  /** `normalize_whitespace(text)` (utils.py:24): `\s+` runs collapsed to one
      space after stripping. The result is normalised, keeps every visible
      character of the input in order, and is empty exactly for blank input. */
  function NormalizeWhitespace(text: string): (r: string)
    ensures r == Join(Words(text), ' ')
    ensures IsNormalized(r)
    ensures NonSpace(r) == NonSpace(text)
    ensures r == [] <==> IsBlank(text)
  {
    CollapseStripped(text);
    CollapseRunsJoinsWords(Strip(text));
    WordsOfStrip(text);
    CollapseRuns(Strip(text))
  }

  /** Collapsing the runs of the stripped text normalises it, keeps its
      visible characters, and gives "" only for blank text. */
  lemma CollapseStripped(text: string)
    ensures IsNormalized(CollapseRuns(Strip(text)))
    ensures NonSpace(CollapseRuns(Strip(text))) == NonSpace(text)
    ensures CollapseRuns(Strip(text)) == [] <==> IsBlank(text)
  {
    CollapseUnpadded(Strip(text));
  }

  lemma CollapseUnpadded(s: string)
    requires s == [] || (!IsSpace(s[0]) && !IsSpace(s[|s| - 1]))
    ensures IsNormalized(CollapseRuns(s))
    ensures NonSpace(CollapseRuns(s)) == NonSpace(s)
    ensures CollapseRuns(s) == [] <==> s == []
  {
    CollapseRunsNormalizes(s);
    CollapseRunsKeepsNonSpace(s);
    if s != [] {
      CollapseRunsHead(s);
    }
  }

  lemma {:induction false} CollapseRunsFixpoint(s: string)
    requires forall i :: 0 <= i < |s| && IsSpace(s[i]) ==> s[i] == ' '
    requires forall i :: 0 <= i < |s| - 1 ==> !(IsSpace(s[i]) && IsSpace(s[i + 1]))
    ensures CollapseRuns(s) == s
    decreases |s|
  {
    if s != [] {
      var t := s[1..];
      CollapseRunsFixpoint(t);
      if IsSpace(s[0]) {
        assert TrimLeft(t) == t;
      }
    }
  }

  /** Normalised text is left unchanged by normalisation. */
  lemma NormalizedIsFixpoint(s: string)
    requires IsNormalized(s)
    ensures NormalizeWhitespace(s) == s
  {
    assert TrimLeft(s) == s;
    assert TrimRight(s) == s;
    CollapseRunsFixpoint(s);
  }

  /** normalize_whitespace is idempotent. */
  lemma NormalizeIdempotent(text: string)
    ensures NormalizeWhitespace(NormalizeWhitespace(text)) == NormalizeWhitespace(text)
  {
    NormalizedIsFixpoint(NormalizeWhitespace(text));
  }

  // ---------------------------------------------------------------------
  // validate_language_code (utils.py:27-36)
  // ---------------------------------------------------------------------

  predicate IsAsciiLower(c: char) { 'a' <= c <= 'z' }
  predicate IsAsciiUpper(c: char) { 'A' <= c <= 'Z' }

  /** `s.isalpha()`: non-empty and every character a letter. */
  predicate IsAlpha(s: string) {
    |s| > 0 && forall i :: 0 <= i < |s| ==> IsAsciiLower(s[i]) || IsAsciiUpper(s[i])
  }

  /** `s.islower()`: some cased character and no upper-case one. */
  predicate IsLower(s: string) {
    && (exists i :: 0 <= i < |s| && (IsAsciiLower(s[i]) || IsAsciiUpper(s[i])))
    && (forall i :: 0 <= i < |s| ==> !IsAsciiUpper(s[i]))
  }

  /** `len(code) == 2 and code.isalpha() and code.islower()`: accepted
      exactly when the code is two lower-case letters. */
  function ValidateLanguageCode(code: string): (r: bool)
    ensures r <==> |code| == 2 && IsAsciiLower(code[0]) && IsAsciiLower(code[1])
  {
    |code| == 2 && IsAlpha(code) && IsLower(code)
  }

  /** The examples the test suite and docstring give. */
  lemma LanguageCodeExamples()
    ensures ValidateLanguageCode("en") && ValidateLanguageCode("fr")
    ensures !ValidateLanguageCode("english") && !ValidateLanguageCode("EN")
    ensures !ValidateLanguageCode("e") && !ValidateLanguageCode("ESP")
  {
  }

  // ---------------------------------------------------------------------
  // split_sentences_simple (utils.py:51-63)
  // ---------------------------------------------------------------------

  predicate IsTerminator(c: char) { c == '.' || c == '!' || c == '?' }

  predicate NoTerminator(s: string) {
    forall i :: 0 <= i < |s| ==> !IsTerminator(s[i])
  }

  /** The characters that are neither whitespace nor sentence terminators, in order. */
  function Visible(s: string): string {
    if s == [] then [] else (if IsSpace(s[0]) || IsTerminator(s[0]) then [] else [s[0]]) + Visible(s[1..])
  }

  function Flatten(pieces: seq<string>): string {
    if pieces == [] then [] else pieces[0] + Flatten(pieces[1..])
  }

  /** Drops the leading run of terminators (the `[.!?]+` of the separator). */
  function DropTerminators(s: string): (r: string)
    ensures |r| <= |s| && r == s[|s| - |r|..]
    ensures Visible(r) == Visible(s)
  {
    if s != [] && IsTerminator(s[0]) then DropTerminators(s[1..]) else s
  }

  /** `re.split(r"[.!?]+\s*", s)`, with `cur` the piece read so far: a piece
      ends at a terminator, and the separator also swallows the terminators
      and whitespace after it. */
  function SplitAtTerminators(s: string, cur: string): seq<string>
    decreases |s|
  {
    if s == [] then [cur]
    else if IsTerminator(s[0]) then [cur] + SplitAtTerminators(TrimLeft(DropTerminators(s[1..])), [])
    else SplitAtTerminators(s[1..], cur + [s[0]])
  }

  /** `[p.strip() for p in pieces if p.strip()]` */
  function KeepStripped(pieces: seq<string>): seq<string> {
    if pieces == [] then []
    else (if Strip(pieces[0]) != [] then [Strip(pieces[0])] else []) + KeepStripped(pieces[1..])
  }

  /** `split_sentences_simple(text)` (utils.py:61-63). */
  function SplitSentencesSimple(text: string): seq<string> {
    KeepStripped(SplitAtTerminators(Strip(text), []))
  }

  lemma {:induction false} VisibleAppend(a: string, b: string)
    ensures Visible(a + b) == Visible(a) + Visible(b)
  {
    if a != [] {
      assert (a + b)[1..] == a[1..] + b;
      VisibleAppend(a[1..], b);
    } else {
      assert a + b == b;
    }
  }

  lemma {:induction false} VisibleOfBlank(s: string)
    requires IsBlank(s)
    ensures Visible(s) == []
  {
    if s != [] {
      assert IsBlank(s[1..]) by {
        forall i | 0 <= i < |s| - 1 ensures IsSpace(s[1..][i]) {
          assert s[1..][i] == s[i + 1];
        }
      }
      VisibleOfBlank(s[1..]);
    }
  }

  lemma FlattenSingle(s: string)
    ensures Flatten([s]) == s
  {
    assert [s][1..] == [];
  }

  lemma {:induction false} FlattenAppend(a: seq<string>, b: seq<string>)
    ensures Flatten(a + b) == Flatten(a) + Flatten(b)
  {
    if a != [] {
      assert (a + b)[1..] == a[1..] + b;
      FlattenAppend(a[1..], b);
    } else {
      assert a + b == b;
    }
  }

  lemma {:induction false} TrimLeftKeepsVisible(s: string)
    ensures Visible(TrimLeft(s)) == Visible(s)
  {
    if s != [] && IsSpace(s[0]) {
      TrimLeftKeepsVisible(s[1..]);
      assert Visible(s) == Visible(s[1..]);
    }
  }

  lemma {:induction false} TrimRightKeepsVisible(s: string)
    ensures Visible(TrimRight(s)) == Visible(s)
  {
    if s != [] && IsSpace(s[|s| - 1]) {
      var init := s[..|s| - 1];
      TrimRightKeepsVisible(init);
      assert s == init + [s[|s| - 1]];
      VisibleAppend(init, [s[|s| - 1]]);
    }
  }

  /** Stripping removes only whitespace, so no visible character and no terminator. */
  lemma StripKeepsVisible(s: string)
    ensures Visible(Strip(s)) == Visible(s)
    ensures NoTerminator(s) ==> NoTerminator(Strip(s))
  {
    var l := TrimLeft(s);
    TrimLeftKeepsVisible(s);
    TrimRightKeepsVisible(l);
    if NoTerminator(s) {
      forall i | 0 <= i < |l| ensures !IsTerminator(l[i]) {
        assert l[i] == s[|s| - |l| + i];
      }
      var r := TrimRight(l);
      forall i | 0 <= i < |r| ensures !IsTerminator(r[i]) {
        assert r[i] == l[i];
      }
    }
  }

  lemma {:induction false} NoTerminatorAppend(a: string, b: string)
    requires NoTerminator(a) && NoTerminator(b)
    ensures NoTerminator(a + b)
  {
  }

  /** The raw pieces carry no terminator. */
  lemma {:induction false} SplitPiecesHaveNoTerminator(s: string, cur: string)
    requires NoTerminator(cur)
    ensures forall k :: 0 <= k < |SplitAtTerminators(s, cur)| ==> NoTerminator(SplitAtTerminators(s, cur)[k])
    decreases |s|
  {
    if s != [] {
      if IsTerminator(s[0]) {
        SplitPiecesHaveNoTerminator(TrimLeft(DropTerminators(s[1..])), []);
      } else {
        SplitPiecesHaveNoTerminator(s[1..], cur + [s[0]]);
      }
    }
  }

  /** The raw pieces lose no visible character and keep their order. */
  lemma {:induction false} SplitPiecesKeepVisible(s: string, cur: string)
    ensures Visible(Flatten(SplitAtTerminators(s, cur))) == Visible(cur) + Visible(s)
    decreases |s|
  {
    if s == [] {
      FlattenSingle(cur);
    } else if IsTerminator(s[0]) {
      var rest := TrimLeft(DropTerminators(s[1..]));
      SplitPiecesKeepVisible(rest, []);
      TerminatorStep(s, cur);
    } else {
      SplitPiecesKeepVisible(s[1..], cur + [s[0]]);
      VisibleStep(s, cur);
    }
  }

  lemma TerminatorStep(s: string, cur: string)
    requires s != [] && IsTerminator(s[0])
    requires var rest := TrimLeft(DropTerminators(s[1..]));
      Visible(Flatten(SplitAtTerminators(rest, []))) == Visible([]) + Visible(rest)
    ensures Visible(Flatten(SplitAtTerminators(s, cur))) == Visible(cur) + Visible(s)
  {
    var dropped := DropTerminators(s[1..]);
    var rest := TrimLeft(dropped);
    var ps := SplitAtTerminators(rest, []);
    assert SplitAtTerminators(s, cur) == [cur] + ps;
    TrimLeftKeepsVisible(dropped);
    FlattenAppend([cur], ps);
    FlattenSingle(cur);
    VisibleAppend(cur, Flatten(ps));
    assert Visible(s) == Visible(s[1..]);
  }

  lemma VisibleStep(s: string, cur: string)
    requires s != [] && !IsTerminator(s[0])
    requires Visible(Flatten(SplitAtTerminators(s[1..], cur + [s[0]]))) == Visible(cur + [s[0]]) + Visible(s[1..])
    ensures Visible(Flatten(SplitAtTerminators(s, cur))) == Visible(cur) + Visible(s)
  {
    assert SplitAtTerminators(s, cur) == SplitAtTerminators(s[1..], cur + [s[0]]);
    VisibleShift(s, cur);
  }

  /** Moving the first character of `s` to the end of `cur` keeps the
      visible characters of the two together. */
  lemma VisibleShift(s: string, cur: string)
    requires s != []
    ensures Visible(cur + [s[0]]) + Visible(s[1..]) == Visible(cur) + Visible(s)
  {
    var a, b, c := Visible(cur), Visible([s[0]]), Visible(s[1..]);
    VisibleAppend(cur, [s[0]]);
    assert [s[0]][1..] == [];
    assert b == if IsSpace(s[0]) || IsTerminator(s[0]) then [] else [s[0]];
    assert b + c == Visible(s);
    assert (a + b) + c == a + (b + c);
  }

  /** What a returned sentence looks like: non-empty, no whitespace at
      either end, no terminator inside. */
  predicate IsSentence(p: string) {
    p != [] && !IsSpace(p[0]) && !IsSpace(p[|p| - 1]) && NoTerminator(p)
  }

  predicate AllSentences(ps: seq<string>) {
    forall k :: 0 <= k < |ps| ==> IsSentence(ps[k])
  }

  lemma AllSentencesAppend(a: seq<string>, b: seq<string>)
    requires AllSentences(a) && AllSentences(b)
    ensures AllSentences(a + b)
  {
    forall k | 0 <= k < |a + b| ensures IsSentence((a + b)[k]) {
      if k < |a| {
        assert (a + b)[k] == a[k];
      } else {
        assert (a + b)[k] == b[k - |a|];
      }
    }
  }

  lemma {:induction false} KeepStrippedShape(pieces: seq<string>)
    requires forall k :: 0 <= k < |pieces| ==> NoTerminator(pieces[k])
    ensures AllSentences(KeepStripped(pieces))
  {
    if pieces != [] {
      var p := pieces[0];
      KeepStrippedShape(pieces[1..]);
      var head := if Strip(p) != [] then [Strip(p)] else [];
      if Strip(p) != [] {
        StripKeepsVisible(p);
        assert IsSentence(Strip(p));
      }
      assert AllSentences(head);
      AllSentencesAppend(head, KeepStripped(pieces[1..]));
    }
  }

  lemma {:induction false} KeepStrippedKeepsVisible(pieces: seq<string>)
    ensures Visible(Flatten(KeepStripped(pieces))) == Visible(Flatten(pieces))
  {
    if pieces != [] {
      var p := pieces[0];
      var rest := Flatten(pieces[1..]);
      var tail := KeepStripped(pieces[1..]);
      KeepStrippedKeepsVisible(pieces[1..]);
      assert Flatten(pieces) == p + rest;
      VisibleAppend(p, rest);
      StripKeepsVisible(p);
      if Strip(p) != [] {
        assert KeepStripped(pieces) == [Strip(p)] + tail;
        assert Flatten([Strip(p)] + tail) == Strip(p) + Flatten(tail) by {
          assert ([Strip(p)] + tail)[1..] == tail;
        }
        VisibleAppend(Strip(p), Flatten(tail));
      } else {
        assert KeepStripped(pieces) == tail;
        VisibleOfBlank(p);
      }
    }
  }

  /** Every piece `split_sentences_simple` returns is non-empty, has no
      whitespace at either end and contains no '.', '!' or '?'. */
  lemma SplitSentencesShape(text: string)
    ensures AllSentences(SplitSentencesSimple(text))
  {
    var s := Strip(text);
    SplitPiecesHaveNoTerminator(s, []);
    KeepStrippedShape(SplitAtTerminators(s, []));
  }

  /** Read one after the other, the pieces hold exactly the input's visible
      characters (neither whitespace nor terminator), in input order. */
  lemma SplitSentencesKeepVisible(text: string)
    ensures Visible(Flatten(SplitSentencesSimple(text))) == Visible(text)
  {
    var s := Strip(text);
    SplitPiecesKeepVisible(s, []);
    KeepStrippedKeepsVisible(SplitAtTerminators(s, []));
    StripKeepsVisible(text);
  }

  /** No sentences exactly when the input holds only whitespace and
      terminators; in particular blank input gives none. */
  lemma SplitSentencesEmpty(text: string)
    ensures SplitSentencesSimple(text) == [] <==> Visible(text) == []
    ensures IsBlank(text) ==> SplitSentencesSimple(text) == []
  {
    SplitSentencesShape(text);
    SplitSentencesKeepVisible(text);
    SentencesShowVisible(SplitSentencesSimple(text));
    if IsBlank(text) {
      VisibleOfBlank(text);
    }
  }

  /** Sentences hold a visible character unless there are none. */
  lemma SentencesShowVisible(r: seq<string>)
    requires AllSentences(r)
    ensures r == [] <==> Visible(Flatten(r)) == []
  {
    if r != [] {
      var p := r[0];
      assert IsSentence(p);
      assert Flatten(r) == p + Flatten(r[1..]);
      VisibleAppend(p, Flatten(r[1..]));
      assert Visible(p) == [p[0]] + Visible(p[1..]);
    }
  }

  /** Stripping a string with no whitespace at either end changes nothing. */
  lemma StripUnpadded(s: string)
    requires s == [] || (!IsSpace(s[0]) && !IsSpace(s[|s| - 1]))
    ensures Strip(s) == s
  {
    assert TrimLeft(s) == s;
    assert TrimRight(s) == s;
  }

  /** Sentences written out one after the other, each closed by the
      terminator `t`, with the whitespace `gap` before the next one. */
  function Punctuate(ps: seq<string>, t: char, gap: string): string
    decreases |ps|
  {
    if ps == [] then []
    else if |ps| == 1 then ps[0] + [t]
    else ps[0] + [t] + gap + Punctuate(ps[1..], t, gap)
  }

  /** Punctuated sentences start with the first sentence's first character
      and end with the terminator. */
  lemma {:induction false} PunctuateEnds(ps: seq<string>, t: char, gap: string)
    requires ps != [] && ps[0] != []
    ensures var text := Punctuate(ps, t, gap);
      text != [] && text[0] == ps[0][0] && text[|text| - 1] == t
    decreases |ps|
  {
    if |ps| > 1 {
      var rest := Punctuate(ps[1..], t, gap);
      if ps[1] != [] {
        PunctuateEnds(ps[1..], t, gap);
      } else {
        PunctuateLast(ps[1..], t, gap);
      }
      assert Punctuate(ps, t, gap) == (ps[0] + [t] + gap) + rest;
    }
  }

  lemma {:induction false} PunctuateLast(ps: seq<string>, t: char, gap: string)
    requires ps != []
    ensures var text := Punctuate(ps, t, gap);
      text != [] && text[|text| - 1] == t
    decreases |ps|
  {
    if |ps| > 1 {
      PunctuateLast(ps[1..], t, gap);
      assert Punctuate(ps, t, gap) == (ps[0] + [t] + gap) + Punctuate(ps[1..], t, gap);
    }
  }

  /** Reading a terminator-free stretch only extends the current piece. */
  lemma {:induction false} SplitAfterPiece(p: string, s: string, cur: string)
    requires NoTerminator(p)
    ensures SplitAtTerminators(p + s, cur) == SplitAtTerminators(s, cur + p)
  {
    if p == [] {
      assert p + s == s && cur + p == cur;
    } else {
      assert (p + s)[1..] == p[1..] + s;
      assert (cur + [p[0]]) + p[1..] == cur + p;
      SplitAfterPiece(p[1..], s, cur + [p[0]]);
    }
  }

  /** lstrip drops a blank prefix in front of a non-whitespace character. */
  lemma {:induction false} TrimLeftBlankPrefix(gap: string, x: string)
    requires IsBlank(gap) && x != [] && !IsSpace(x[0])
    ensures TrimLeft(gap + x) == x
  {
    if gap == [] {
      assert gap + x == x;
    } else {
      assert (gap + x)[1..] == gap[1..] + x;
      assert IsSpace(gap[0]);
      assert IsBlank(gap[1..]) by {
        forall i | 0 <= i < |gap| - 1 ensures IsSpace(gap[1..][i]) {
          assert gap[1..][i] == gap[i + 1];
        }
      }
      TrimLeftBlankPrefix(gap[1..], x);
    }
  }

  lemma SpaceIsNotTerminator(c: char)
    requires IsSpace(c)
    ensures !IsTerminator(c)
  {
  }

  /** A terminator followed by `gap` and a sentence: the separator swallows
      the terminator and the whitespace, and the next piece starts at the
      sentence. */
  lemma SeparatorStep(gap: string, x: string)
    requires IsBlank(gap)
    requires x != [] && !IsSpace(x[0]) && !IsTerminator(x[0])
    ensures TrimLeft(DropTerminators(gap + x)) == x
  {
    var y := gap + x;
    if gap == [] {
      assert y == x;
    } else {
      assert y[0] == gap[0];
      SpaceIsNotTerminator(gap[0]);
    }
    assert DropTerminators(y) == y;
    TrimLeftBlankPrefix(gap, x);
  }

  /** The raw pieces of punctuated sentences are the sentences and a final
      empty piece after the last terminator. */
  lemma {:induction false} SplitPunctuated(ps: seq<string>, t: char, gap: string)
    requires AllSentences(ps) && ps != []
    requires IsTerminator(t) && IsBlank(gap)
    ensures SplitAtTerminators(Punctuate(ps, t, gap), []) == ps + [[]]
    decreases |ps|
  {
    if |ps| == 1 {
      SplitLastSentence(ps, t, gap);
    } else {
      AllSentencesTail(ps);
      SplitPunctuated(ps[1..], t, gap);
      SplitPunctuatedStep(ps, t, gap);
    }
  }

  lemma AllSentencesTail(ps: seq<string>)
    requires AllSentences(ps) && ps != []
    ensures AllSentences(ps[1..]) && IsSentence(ps[0])
  {
    forall k | 0 <= k < |ps| - 1 ensures IsSentence(ps[1..][k]) {
      assert ps[1..][k] == ps[k + 1];
    }
  }

  lemma SplitLastSentence(ps: seq<string>, t: char, gap: string)
    requires AllSentences(ps) && |ps| == 1
    requires IsTerminator(t)
    ensures SplitAtTerminators(Punctuate(ps, t, gap), []) == ps + [[]]
  {
    AllSentencesTail(ps);
    assert Punctuate(ps, t, gap) == ps[0] + [t];
    SplitFinalSentence(ps[0], t);
    assert ps + [[]] == [ps[0], []];
  }

  /** The last sentence and its terminator give the sentence and a final
      empty piece. */
  lemma SplitFinalSentence(p: string, t: char)
    requires NoTerminator(p) && IsTerminator(t)
    ensures SplitAtTerminators(p + [t], []) == [p, []]
  {
    SplitFinalFrom(p, t, []);
    assert [] + p == p;
  }

  lemma {:induction false} SplitFinalFrom(p: string, t: char, cur: string)
    requires NoTerminator(p) && IsTerminator(t)
    ensures SplitAtTerminators(p + [t], cur) == [cur + p, []]
    decreases |p|
  {
    if p == [] {
      assert p + [t] == [t] && cur + p == cur;
      SplitLoneTerminator(t, cur);
    } else {
      assert (p + [t])[1..] == p[1..] + [t];
      assert (cur + [p[0]]) + p[1..] == cur + p;
      SplitFinalFrom(p[1..], t, cur + [p[0]]);
    }
  }

  lemma SplitLoneTerminator(t: char, cur: string)
    requires IsTerminator(t)
    ensures SplitAtTerminators([t], cur) == [cur, []]
  {
    var e: string := [];
    assert [t][1..] == e;
    assert DropTerminators(e) == e;
    assert TrimLeft(e) == e;
    assert SplitAtTerminators(e, []) == [e];
  }

  /** A terminator ends the current piece; the separator swallows the
      terminators and whitespace after it. */
  lemma SplitAtTerminator(t: char, y: string, cur: string)
    requires IsTerminator(t)
    ensures SplitAtTerminators([t] + y, cur) == [cur] + SplitAtTerminators(TrimLeft(DropTerminators(y)), [])
  {
    assert ([t] + y)[1..] == y;
  }

  lemma PunctuateCons(ps: seq<string>, t: char, gap: string)
    requires |ps| > 1
    ensures Punctuate(ps, t, gap) == ps[0] + ([t] + (gap + Punctuate(ps[1..], t, gap)))
  {
    var x := Punctuate(ps[1..], t, gap);
    assert ps[0] + [t] + gap + x == ps[0] + ([t] + (gap + x));
  }

  lemma SplitPunctuatedStep(ps: seq<string>, t: char, gap: string)
    requires AllSentences(ps) && |ps| > 1
    requires IsTerminator(t) && IsBlank(gap)
    requires SplitAtTerminators(Punctuate(ps[1..], t, gap), []) == ps[1..] + [[]]
    ensures SplitAtTerminators(Punctuate(ps, t, gap), []) == ps + [[]]
  {
    var p, x := ps[0], Punctuate(ps[1..], t, gap);
    AllSentencesTail(ps);
    AllSentencesTail(ps[1..]);
    PunctuateEnds(ps[1..], t, gap);
    PunctuateCons(ps, t, gap);
    SplitSentenceThen(p, t, gap, x);
    ConsPieces(SplitAtTerminators(Punctuate(ps, t, gap), []), p, ps, ps[1..] + [[]]);
  }

  /** A sentence, its terminator and a gap in front of the next sentence
      give the sentence as one piece, and splitting goes on at the next
      sentence. */
  lemma SplitSentenceThen(p: string, t: char, gap: string, x: string)
    requires NoTerminator(p) && IsTerminator(t) && IsBlank(gap)
    requires x != [] && !IsSpace(x[0]) && !IsTerminator(x[0])
    ensures SplitAtTerminators(p + ([t] + (gap + x)), []) == [p] + SplitAtTerminators(x, [])
  {
    SplitAfterPiece(p, [t] + (gap + x), []);
    assert [] + p == p;
    SplitAtTerminator(t, gap + x, p);
    SeparatorStep(gap, x);
  }

  lemma ConsPieces(r: seq<string>, p: string, ps: seq<string>, rest: seq<string>)
    requires ps != [] && p == ps[0] && rest == ps[1..] + [[]]
    requires r == [p] + rest
    ensures r == ps + [[]]
  {
    assert ps == [ps[0]] + ps[1..];
  }

  /** Keeping the stripped non-empty pieces of sentences and a final empty
      piece gives back the sentences. */
  lemma KeepStrippedSentences(ps: seq<string>)
    requires AllSentences(ps)
    ensures KeepStripped(ps + [[]]) == ps
  {
    forall x, tail | IsSentence(x) ensures KeepStripped([x] + tail) == [x] + KeepStripped(tail) {
      KeepStrippedSentence(x, tail);
    }
    KeepsPrefix(KeepStripped, IsSentence, ps, [[]]);
    KeepStrippedEmptyPiece();
    assert ps + [] == ps;
  }

  lemma KeepStrippedEmptyPiece()
    ensures KeepStripped([[]]) == []
  {
    var empty: seq<string> := [[]];
    assert Strip([]) == [];
    assert empty[1..] == [];
  }

  /** A `k` that keeps every `keep` element in front of whatever follows
      keeps a whole prefix of such elements. */
  lemma {:induction false} KeepsPrefix<T>(k: seq<T> -> seq<T>, keep: T -> bool, ps: seq<T>, rest: seq<T>)
    requires forall x, tail :: keep(x) ==> k([x] + tail) == [x] + k(tail)
    requires forall i :: 0 <= i < |ps| ==> keep(ps[i])
    ensures k(ps + rest) == ps + k(rest)
    decreases |ps|
  {
    if ps == [] {
      assert ps + rest == rest;
      assert ps + k(rest) == k(rest);
    } else {
      assert keep(ps[0]);
      KeepsPrefix(k, keep, ps[1..], rest);
      HeadOfAppend(ps, rest);
      HeadOfAppend(ps, k(rest));
    }
  }

  lemma HeadOfAppend<T>(xs: seq<T>, ys: seq<T>)
    requires xs != []
    ensures xs + ys == [xs[0]] + (xs[1..] + ys)
  {
  }

  /** A sentence in front is kept as it is. */
  lemma KeepStrippedSentence(p: string, rest: seq<string>)
    requires p != [] && !IsSpace(p[0]) && !IsSpace(p[|p| - 1])
    ensures KeepStripped([p] + rest) == [p] + KeepStripped(rest)
  {
    StripUnpadded(p);
    var pieces := [p] + rest;
    assert pieces[0] == p && pieces[1..] == rest;
  }


  /** Where `split_sentences_simple` cuts: sentences that are non-empty,
      unpadded and terminator-free, each closed by the terminator `t` and
      separated by the whitespace `gap`, split back into exactly those
      sentences. */
  lemma SplitSentencesPunctuated(ps: seq<string>, t: char, gap: string)
    requires AllSentences(ps)
    requires IsTerminator(t) && IsBlank(gap)
    ensures SplitSentencesSimple(Punctuate(ps, t, gap)) == ps
  {
    var text := Punctuate(ps, t, gap);
    PunctuatedIsStripped(ps, t, gap);
    if ps == [] {
      KeepStrippedEmptyPiece();
      SplitSentencesOfPieces(text, [], [[]]);
    } else {
      SplitPunctuated(ps, t, gap);
      KeepStrippedSentences(ps);
      SplitSentencesOfPieces(text, ps, ps + [[]]);
    }
  }

  /** Punctuated sentences have no whitespace at either end. */
  lemma PunctuatedIsStripped(ps: seq<string>, t: char, gap: string)
    requires AllSentences(ps) && IsTerminator(t)
    ensures Strip(Punctuate(ps, t, gap)) == Punctuate(ps, t, gap)
    ensures ps == [] ==> SplitAtTerminators(Punctuate(ps, t, gap), []) == [[]]
  {
    if ps != [] {
      AllSentencesTail(ps);
      PunctuateEnds(ps, t, gap);
      assert !IsSpace(t);
    }
    StripUnpadded(Punctuate(ps, t, gap));
  }

  lemma SplitSentencesOfPieces(text: string, ps: seq<string>, pieces: seq<string>)
    requires Strip(text) == text
    requires SplitAtTerminators(text, []) == pieces && KeepStripped(pieces) == ps
    ensures SplitSentencesSimple(text) == ps
  {
  }

  // ---------------------------------------------------------------------
  // str.join and str.split with a one-character separator
  // ---------------------------------------------------------------------

  /** `sep.join(parts)` */
  function Join(parts: seq<string>, sep: char): string {
    if parts == [] then ""
    else if |parts| == 1 then parts[0]
    else parts[0] + [sep] + Join(parts[1..], sep)
  }

  /** `s.split(sep)`, with `cur` the piece read so far. */
  function SplitFrom(s: string, sep: char, cur: string): (r: seq<string>)
    ensures r != []
    decreases |s|
  {
    if s == [] then [cur]
    else if s[0] == sep then [cur] + SplitFrom(s[1..], sep, "")
    else SplitFrom(s[1..], sep, cur + [s[0]])
  }

  function Split(s: string, sep: char): seq<string> {
    SplitFrom(s, sep, "")
  }

  lemma {:induction false} SplitSkips(a: string, rest: string, sep: char, cur: string)
    requires sep !in a
    ensures SplitFrom(a + rest, sep, cur) == SplitFrom(rest, sep, cur + a)
    decreases |a|
  {
    if a == [] {
      assert a + rest == rest;
      assert cur + a == cur;
    } else {
      assert (a + rest)[1..] == a[1..] + rest;
      SplitSkips(a[1..], rest, sep, cur + [a[0]]);
      assert cur + [a[0]] + a[1..] == cur + a;
    }
  }

  /** Splitting a join gives the parts back, as long as no part holds the
      separator itself. */
  lemma {:induction false} SplitJoin(parts: seq<string>, sep: char)
    requires parts != []
    requires forall i :: 0 <= i < |parts| ==> sep !in parts[i]
    ensures Split(Join(parts, sep), sep) == parts
  {
    if |parts| == 1 {
      SplitSkips(parts[0], "", sep, "");
      assert parts[0] + "" == parts[0];
    } else {
      var rest := Join(parts[1..], sep);
      SplitJoin(parts[1..], sep);
      assert parts[0] + [sep] + rest == parts[0] + ([sep] + rest);
      SplitSkips(parts[0], [sep] + rest, sep, "");
      assert "" + parts[0] == parts[0];
      assert ([sep] + rest)[0] == sep && ([sep] + rest)[1..] == rest;
      assert SplitFrom([sep] + rest, sep, parts[0]) == [parts[0]] + SplitFrom(rest, sep, "");
      assert parts == [parts[0]] + parts[1..];
    }
  }

  lemma {:induction false} JoinSplitFrom(s: string, sep: char, cur: string)
    ensures Join(SplitFrom(s, sep, cur), sep) == cur + s
    decreases |s|
  {
    if s == [] {
      assert cur + s == cur;
    } else if s[0] == sep {
      var rest := SplitFrom(s[1..], sep, "");
      JoinSplitFrom(s[1..], sep, "");
      assert ([cur] + rest)[1..] == rest;
      assert "" + s[1..] == s[1..];
      assert s == [sep] + s[1..];
    } else {
      JoinSplitFrom(s[1..], sep, cur + [s[0]]);
      assert cur + [s[0]] + s[1..] == cur + s;
    }
  }

  /** Joining the pieces of a split gives the text back. */
  lemma JoinSplit(s: string, sep: char)
    ensures Join(Split(s, sep), sep) == s
  {
    JoinSplitFrom(s, sep, "");
    assert "" + s == s;
  }

  lemma {:induction false} SplitFromLacksSeparator(s: string, sep: char, cur: string)
    requires sep !in cur
    ensures forall i :: 0 <= i < |SplitFrom(s, sep, cur)| ==> sep !in SplitFrom(s, sep, cur)[i]
    decreases |s|
  {
    if s != [] {
      if s[0] == sep {
        SplitFromLacksSeparator(s[1..], sep, "");
        var rest := SplitFrom(s[1..], sep, "");
        assert forall i :: 1 <= i < |[cur] + rest| ==> ([cur] + rest)[i] == rest[i - 1];
      } else {
        SplitFromLacksSeparator(s[1..], sep, cur + [s[0]]);
      }
    }
  }

  /** No piece of a split holds the separator. */
  lemma SplitLacksSeparator(s: string, sep: char)
    ensures forall i :: 0 <= i < |Split(s, sep)| ==> sep !in Split(s, sep)[i]
  {
    SplitFromLacksSeparator(s, sep, "");
  }

  lemma {:induction false} SplitFromAppend(s: string, sep: char, p: string, cur: string)
    requires sep !in p
    ensures SplitFrom(s + [sep] + p, sep, cur) == SplitFrom(s, sep, cur) + [p]
    decreases |s|
  {
    if s == [] {
      assert s + [sep] + p == [sep] + p;
      SplitSkips(p, "", sep, "");
      assert p + "" == p && "" + p == p;
    } else {
      assert (s + [sep] + p)[0] == s[0];
      assert (s + [sep] + p)[1..] == s[1..] + [sep] + p;
      if s[0] == sep {
        SplitFromAppend(s[1..], sep, p, "");
      } else {
        SplitFromAppend(s[1..], sep, p, cur + [s[0]]);
      }
    }
  }

  /** A piece appended after one more separator is one more piece. */
  lemma SplitAppend(s: string, sep: char, p: string)
    requires sep !in p
    ensures Split(s + [sep] + p, sep) == Split(s, sep) + [p]
  {
    SplitFromAppend(s, sep, p, "");
  }
}
