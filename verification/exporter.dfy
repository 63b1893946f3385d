/** File naming and saving (`FileExporter` in app/exporter/file_exporter.py):
    a keyword becomes a slug, the slug and the current date become a file name,
    and the article overwrites whatever that name held in the output directory. */
module FileExport {
  import opened Results
  import Text
  import Unicode
  import Decimal
  import KeywordInput

  predicate IsHyphen(c: char) {
    c == '-'
  }

  /** What `[^\w\-]` does not match: word characters and the hyphen. */
  function SlugAlphabet(u: Unicode.CharClasses): char -> bool {
    c => u.isWord(c) || c == '-'
  }

  /** A well-formed slug: word characters and single hyphens between them,
      with no hyphen at either end. */
  predicate IsSlug(u: Unicode.CharClasses, s: string) {
    && Text.All(SlugAlphabet(u), s)
    && Text.SingleSeparated(IsHyphen, '-', s)
  }

  // ---------------------------------------------------------------------
  // Slugs

  /** Stripping hyphens from a hyphen-collapsed string over the slug alphabet
      leaves a well-formed slug. */
  lemma TrimmedIsSlug(u: Unicode.CharClasses, collapsed: string)
    requires Text.All(SlugAlphabet(u), collapsed) && Text.NoAdjacent(IsHyphen, collapsed)
    ensures IsSlug(u, Text.Trim(IsHyphen, collapsed))
  {
    Text.TrimKeeps(SlugAlphabet(u), IsHyphen, '-', collapsed);
  }

  /** Each step after lowercasing keeps the word characters as they are. */
  lemma SlugStepsKeepWords(u: Unicode.CharClasses, lowered: string)
    requires Unicode.Valid(u)
    ensures
      var hyphenated := Text.CollapseRuns(u.isSpace, '-', lowered);
      var kept := Text.Filter(SlugAlphabet(u), hyphenated);
      var collapsed := Text.CollapseRuns(IsHyphen, '-', kept);
      Text.Filter(u.isWord, Text.Trim(IsHyphen, collapsed)) == Text.Filter(u.isWord, lowered)
  {
    var hyphenated := Text.CollapseRuns(u.isSpace, '-', lowered);
    var kept := Text.Filter(SlugAlphabet(u), hyphenated);
    var collapsed := Text.CollapseRuns(IsHyphen, '-', kept);
    Text.CollapseKeepsFilter(u.isSpace, u.isWord, '-', lowered);
    Text.FilterFilter(u.isWord, SlugAlphabet(u), hyphenated);
    Text.CollapseKeepsFilter(IsHyphen, u.isWord, '-', kept);
    Text.TrimKeepsFilter(IsHyphen, u.isWord, collapsed);
  }

  /** Steps two to four of `_slugify`, applied to already lowercased text:
      whitespace runs to `-`, drop everything but word characters and `-`,
      hyphen runs to one `-`, then strip `-` from both ends. */
  function SlugOfLowered(u: Unicode.CharClasses, lowered: string): (r: string)
    requires Unicode.Valid(u)
    ensures IsSlug(u, r)
    ensures Text.Filter(u.isWord, r) == Text.Filter(u.isWord, lowered)
  {
    var hyphenated := Text.CollapseRuns(u.isSpace, '-', lowered);
    var kept := Text.Filter(SlugAlphabet(u), hyphenated);
    var collapsed := Text.CollapseRuns(IsHyphen, '-', kept);
    Text.CollapseAll(IsHyphen, SlugAlphabet(u), '-', kept);
    Text.CollapseNoAdjacent(IsHyphen, '-', kept);
    TrimmedIsSlug(u, collapsed);
    SlugStepsKeepWords(u, lowered);
    Text.Trim(IsHyphen, collapsed)
  }

  /** `_slugify`: lowercase, then `SlugOfLowered`. The slug is well formed, and
      its word characters are exactly those of the lowercased keyword, in order:
      nothing but separators and punctuation is ever dropped. */
  function Slugify(u: Unicode.CharClasses, text: string): (r: string)
    requires Unicode.Valid(u)
    ensures IsSlug(u, r)
    ensures Text.Filter(u.isWord, r) == Text.Filter(u.isWord, u.lower(text))
  {
    SlugOfLowered(u, u.lower(text))
  }

  /** The slugs are exactly the strings slugging leaves unchanged. */
  lemma SlugFixedPoints(u: Unicode.CharClasses, s: string)
    requires Unicode.Valid(u)
    ensures SlugOfLowered(u, s) == s <==> IsSlug(u, s)
  {
    if IsSlug(u, s) {
      assert Text.Avoids(u.isSpace, s) by {
        forall i | 0 <= i < |s|
          ensures !u.isSpace(s[i])
        {
          assert SlugAlphabet(u)(s[i]);
        }
      }
      Text.CollapseAvoiding(u.isSpace, '-', s);
      Text.FilterAll(SlugAlphabet(u), s);
      Text.CollapseIdentity(IsHyphen, '-', s);
      Text.TrimIdentity(IsHyphen, s);
    }
  }

  /** Words of word characters separated by single spaces become the same
      words joined by hyphens. */
  lemma SlugOfSpacedWords(u: Unicode.CharClasses, ws: seq<string>)
    requires Unicode.Valid(u)
    requires forall i :: 0 <= i < |ws| ==> ws[i] != [] && Text.All(u.isWord, ws[i])
    ensures SlugOfLowered(u, Text.Join(" ", ws)) == Text.Join("-", ws)
  {
    var joined := Text.Join("-", ws);
    assert Text.Words(u.isSpace, ws) by {
      forall i, j | 0 <= i < |ws| && 0 <= j < |ws[i]|
        ensures !u.isSpace(ws[i][j])
      {
        assert u.isWord(ws[i][j]);
      }
    }
    assert Text.Words(IsHyphen, ws) by {
      forall i, j | 0 <= i < |ws| && 0 <= j < |ws[i]|
        ensures !IsHyphen(ws[i][j])
      {
        assert u.isWord(ws[i][j]);
      }
    }
    assert Text.CollapseRuns(u.isSpace, '-', Text.Join(" ", ws)) == joined by {
      Text.CollapseJoin(u.isSpace, ' ', '-', ws);
    }
    assert Text.Filter(SlugAlphabet(u), joined) == joined by {
      forall i, j | 0 <= i < |ws| && 0 <= j < |ws[i]|
        ensures SlugAlphabet(u)(ws[i][j])
      {
        assert u.isWord(ws[i][j]);
      }
      Text.JoinAll(SlugAlphabet(u), '-', ws);
      Text.FilterAll(SlugAlphabet(u), joined);
    }
    assert Text.CollapseRuns(IsHyphen, '-', joined) == joined by {
      Text.CollapseJoin(IsHyphen, '-', '-', ws);
    }
    assert Text.Trim(IsHyphen, joined) == joined by {
      Text.JoinShape(IsHyphen, '-', ws);
      Text.TrimIdentity(IsHyphen, joined);
    }
  }

  /** The slug is empty exactly when the lowercased keyword has no word
      character at all, so a keyword of punctuation alone names the file
      `-<date>.md`. */
  lemma EmptySlug(u: Unicode.CharClasses, text: string)
    requires Unicode.Valid(u)
    ensures Slugify(u, text) == [] <==> Text.Avoids(u.isWord, u.lower(text))
  {
    var r := Slugify(u, text);
    Text.FilterEmpty(u.isWord, r);
    Text.FilterEmpty(u.isWord, u.lower(text));
    if r != [] {
      assert SlugAlphabet(u)(r[0]) && !IsHyphen(r[0]);
      assert u.isWord(r[0]);
    }
  }

  /** `"!!!"` passes keyword validation, as one word, yet slugs to nothing. */
  lemma PunctuationSlugExample()
    ensures KeywordInput.Validate(Unicode.Ascii, "!!!") == Success(true)
    ensures Slugify(Unicode.Ascii, "!!!") == []
  {
    PunctuationIsOneWord();
    PunctuationSlugsEmpty();
  }

  lemma PunctuationIsOneWord()
    ensures KeywordInput.WordsOf(Unicode.Ascii, "!!!") == ["!!!"]
  {
    var s := "!!!";
    assert Text.Avoids(Unicode.Ascii.isSpace, s);
    assert s + [] == s;
    Text.SplitWordThen(Unicode.Ascii.isSpace, s, []);
  }

  lemma PunctuationSlugsEmpty()
    ensures Slugify(Unicode.Ascii, "!!!") == []
  {
    Unicode.AsciiValid();
    var s := "!!!";
    var l := Unicode.Ascii.lower(s);
    assert |l| == 3 && l[0] == '!' && l[1] == '!' && l[2] == '!';
    assert Text.Avoids(Unicode.Ascii.isWord, l);
    EmptySlug(Unicode.Ascii, s);
  }

  /** What may stand between two words for them to end up one hyphen apart:
      a non-empty run of whitespace and hyphens. */
  predicate IsGap(u: Unicode.CharClasses, x: string) {
    x != [] && forall i :: 0 <= i < |x| ==> u.isSpace(x[i]) || x[i] == '-'
  }

  /** Words of word characters separated by any non-empty runs of whitespace
      and hyphens become the same words joined by single hyphens. */
  lemma SlugOfSeparatedWords(u: Unicode.CharClasses, ws: seq<string>, gaps: seq<string>)
    requires Unicode.Valid(u)
    requires |gaps| + 1 == |ws|
    requires forall i :: 0 <= i < |ws| ==> ws[i] != [] && Text.All(u.isWord, ws[i])
    requires forall i :: 0 <= i < |gaps| ==> IsGap(u, gaps[i])
    ensures SlugOfLowered(u, Text.Weave(ws, gaps)) == Text.Join("-", ws)
  {
    var joined := Text.Join("-", ws);
    WordsAvoidSeparators(u, ws);
    var hyphens := Text.CollapseEach(u.isSpace, '-', gaps);
    assert Text.CollapseRuns(u.isSpace, '-', Text.Weave(ws, gaps)) == Text.Weave(ws, hyphens) by {
      Text.CollapseWeave(u.isSpace, '-', ws, gaps);
    }
    GapsBecomeHyphens(u, gaps);
    var single := Text.CollapseEach(IsHyphen, '-', hyphens);
    assert Text.Filter(SlugAlphabet(u), Text.Weave(ws, hyphens)) == Text.Weave(ws, hyphens) by {
      WordsInAlphabet(u, ws, hyphens);
      Text.FilterAll(SlugAlphabet(u), Text.Weave(ws, hyphens));
    }
    assert Text.CollapseRuns(IsHyphen, '-', Text.Weave(ws, hyphens)) == joined by {
      Text.CollapseWeave(IsHyphen, '-', ws, hyphens);
      HyphensBecomeOne(hyphens);
      Text.WeaveJoin("-", ws, single);
    }
    assert Text.Trim(IsHyphen, joined) == joined by {
      Text.JoinShape(IsHyphen, '-', ws);
      Text.TrimIdentity(IsHyphen, joined);
    }
  }

  /** Words of word characters contain neither whitespace nor hyphens. */
  lemma WordsAvoidSeparators(u: Unicode.CharClasses, ws: seq<string>)
    requires Unicode.Valid(u)
    requires forall i :: 0 <= i < |ws| ==> ws[i] != [] && Text.All(u.isWord, ws[i])
    ensures Text.Words(u.isSpace, ws) && Text.Words(IsHyphen, ws)
  {
    forall i, j | 0 <= i < |ws| && 0 <= j < |ws[i]|
      ensures !u.isSpace(ws[i][j]) && !IsHyphen(ws[i][j])
    {
      assert u.isWord(ws[i][j]);
    }
  }

  /** Each gap collapses to a non-empty run of hyphens. */
  lemma GapsBecomeHyphens(u: Unicode.CharClasses, gaps: seq<string>)
    requires forall i :: 0 <= i < |gaps| ==> IsGap(u, gaps[i])
    ensures forall i :: 0 <= i < |gaps| ==>
      var h := Text.CollapseRuns(u.isSpace, '-', gaps[i]);
      h != [] && Text.All(IsHyphen, h)
  {
    forall i | 0 <= i < |gaps|
      ensures var h := Text.CollapseRuns(u.isSpace, '-', gaps[i]);
        h != [] && Text.All(IsHyphen, h)
    {
      Text.CollapseAll(u.isSpace, IsHyphen, '-', gaps[i]);
    }
  }

  /** Word characters and hyphens woven together stay within the slug alphabet. */
  lemma WordsInAlphabet(u: Unicode.CharClasses, ws: seq<string>, hyphens: seq<string>)
    requires |hyphens| + 1 == |ws|
    requires forall i :: 0 <= i < |ws| ==> Text.All(u.isWord, ws[i])
    requires forall i :: 0 <= i < |hyphens| ==> Text.All(IsHyphen, hyphens[i])
    ensures Text.All(SlugAlphabet(u), Text.Weave(ws, hyphens))
  {
    forall i, j | 0 <= i < |ws| && 0 <= j < |ws[i]|
      ensures SlugAlphabet(u)(ws[i][j])
    {
      assert u.isWord(ws[i][j]);
    }
    forall i, j | 0 <= i < |hyphens| && 0 <= j < |hyphens[i]|
      ensures SlugAlphabet(u)(hyphens[i][j])
    {
      assert IsHyphen(hyphens[i][j]);
    }
    Text.WeaveAll(SlugAlphabet(u), ws, hyphens);
  }

  /** Each non-empty run of hyphens collapses to a single hyphen. */
  lemma HyphensBecomeOne(hyphens: seq<string>)
    requires forall i :: 0 <= i < |hyphens| ==> hyphens[i] != [] && Text.All(IsHyphen, hyphens[i])
    ensures forall i :: 0 <= i < |hyphens| ==> Text.CollapseEach(IsHyphen, '-', hyphens)[i] == "-"
  {
    forall i | 0 <= i < |hyphens|
      ensures Text.CollapseRuns(IsHyphen, '-', hyphens[i]) == "-"
    {
      Text.CollapseRun(IsHyphen, '-', hyphens[i]);
    }
  }

  /** What separates the words of a slug: whitespace and hyphens. */
  function SlugSeparator(u: Unicode.CharClasses): char -> bool {
    c => u.isSpace(c) || c == '-'
  }

  /** What survives `_slugify` in some form: word characters, whitespace and hyphens. */
  function SlugKept(u: Unicode.CharClasses): char -> bool {
    c => u.isWord(c) || u.isSpace(c) || c == '-'
  }

  /** The slug of any lowercased text: delete every character that is not a word
      character, whitespace or hyphen, take the words between the runs of
      whitespace and hyphens, and join them with single hyphens. So `"a!b"`
      gives `"ab"` and `"rock & roll"` gives `"rock-roll"`. */
  lemma SlugReference(u: Unicode.CharClasses, s: string)
    requires Unicode.Valid(u)
    ensures SlugOfLowered(u, s)
         == Text.Join("-", Text.Split(SlugSeparator(u), Text.Filter(SlugKept(u), s)))
  {
    var hyphenated := Text.CollapseRuns(u.isSpace, '-', s);
    var kept := Text.Filter(SlugAlphabet(u), hyphenated);
    var collapsed := Text.CollapseRuns(IsHyphen, '-', kept);
    var r := Text.Trim(IsHyphen, collapsed);
    assert r == SlugOfLowered(u, s);
    Text.JoinSplit(IsHyphen, '-', r);
    Text.SplitTrim(IsHyphen, collapsed);
    Text.SplitCollapse(IsHyphen, '-', kept);
    HyphenWordsAreKeptWords(u, s);
    assert Text.Split(IsHyphen, kept) == HyphenWords(u, s);
  }

  /** The words `_slugify` sees after its second step, split at hyphens. */
  function HyphenWords(u: Unicode.CharClasses, s: string): seq<string> {
    Text.Split(IsHyphen, Text.Filter(SlugAlphabet(u), Text.CollapseRuns(u.isSpace, '-', s)))
  }

  /** The words of the kept characters, split at whitespace and hyphens. */
  function KeptWords(u: Unicode.CharClasses, s: string): seq<string> {
    Text.Split(SlugSeparator(u), Text.Filter(SlugKept(u), s))
  }

  /** Turning whitespace runs into hyphens and then dropping other characters
      splits into the same words as dropping them first and splitting at both. */
  lemma {:induction false} HyphenWordsAreKeptWords(u: Unicode.CharClasses, s: string)
    requires Unicode.Valid(u)
    ensures HyphenWords(u, s) == KeptWords(u, s)
    decreases |s|
  {
    if s == [] {
    } else if SlugSeparator(u)(s[0]) {
      var g := Text.RunLength(SlugSeparator(u), s);
      HyphenWordsSkipRun(u, s, g);
      KeptWordsSkipRun(u, s, g);
      HyphenWordsAreKeptWords(u, s[g..]);
    } else {
      var n := Text.GapLength(SlugSeparator(u), s);
      WordStep(u, s, n);
      HyphenWordsAreKeptWords(u, s[n..]);
    }
  }

  /** A piece without whitespace or hyphens keeps just its word characters. */
  lemma {:induction false} FilterGapFree(u: Unicode.CharClasses, w: string)
    requires Unicode.Valid(u)
    requires Text.Avoids(SlugSeparator(u), w)
    ensures Text.Filter(SlugAlphabet(u), w) == Text.Filter(u.isWord, w)
    ensures Text.Filter(SlugKept(u), w) == Text.Filter(u.isWord, w)
    decreases |w|
  {
    if w != [] {
      assert !SlugSeparator(u)(w[0]);
      assert Text.Avoids(SlugSeparator(u), w[1..]) by {
        forall i | 0 <= i < |w[1..]|
          ensures !SlugSeparator(u)(w[1..][i])
        {
          assert w[1..][i] == w[i + 1];
        }
      }
      FilterGapFree(u, w[1..]);
    }
  }

  /** A leading run of whitespace and hyphens adds no word after the second step. */
  lemma HyphenWordsSkipRun(u: Unicode.CharClasses, s: string, g: nat)
    requires Unicode.Valid(u)
    requires 0 < g <= |s| && Text.All(SlugSeparator(u), s[..g])
    requires g < |s| ==> !SlugSeparator(u)(s[g])
    ensures HyphenWords(u, s) == HyphenWords(u, s[g..])
  {
    var run, t := s[..g], s[g..];
    assert s == run + t;
    assert t == [] || !u.isSpace(t[0]) by {
      if t != [] {
        assert t[0] == s[g];
      }
    }
    Text.CollapseAppend(u.isSpace, '-', run, t);
    var hy := Text.CollapseRuns(u.isSpace, '-', run);
    assert forall i :: 0 <= i < |run| && !u.isSpace(run[i]) ==> IsHyphen(run[i]) by {
      forall i | 0 <= i < |run| && !u.isSpace(run[i])
        ensures run[i] == '-'
      {
        assert SlugSeparator(u)(run[i]);
      }
    }
    Text.CollapseAll(u.isSpace, IsHyphen, '-', run);
    HyphensInAlphabet(u, hy);
    var ct := Text.CollapseRuns(u.isSpace, '-', t);
    Text.FilterAppend(SlugAlphabet(u), hy, ct);
    Text.FilterAll(SlugAlphabet(u), hy);
    Text.SplitDropPrefix(IsHyphen, hy, Text.Filter(SlugAlphabet(u), ct));
  }

  lemma HyphensInAlphabet(u: Unicode.CharClasses, hy: string)
    requires Text.All(IsHyphen, hy)
    ensures Text.All(SlugAlphabet(u), hy)
  {
    forall i | 0 <= i < |hy|
      ensures SlugAlphabet(u)(hy[i])
    {
      assert hy[i] == '-';
    }
  }

  /** A leading run of whitespace and hyphens adds no kept word. */
  lemma KeptWordsSkipRun(u: Unicode.CharClasses, s: string, g: nat)
    requires Unicode.Valid(u)
    requires 0 < g <= |s| && Text.All(SlugSeparator(u), s[..g])
    ensures KeptWords(u, s) == KeptWords(u, s[g..])
  {
    var run, t := s[..g], s[g..];
    assert s == run + t;
    assert Text.All(SlugKept(u), run) by {
      forall i | 0 <= i < |run|
        ensures SlugKept(u)(run[i])
      {
        assert SlugSeparator(u)(run[i]);
      }
    }
    Text.FilterAppend(SlugKept(u), run, t);
    Text.FilterAll(SlugKept(u), run);
    Text.SplitDropPrefix(SlugSeparator(u), run, Text.Filter(SlugKept(u), t));
  }

  /** A leading piece free of whitespace and hyphens contributes its word
      characters as one word to both splits, or nothing to either when it has none. */
  lemma WordStep(u: Unicode.CharClasses, s: string, n: nat)
    requires Unicode.Valid(u)
    requires 0 < n <= |s| && Text.Avoids(SlugSeparator(u), s[..n])
    requires n < |s| ==> SlugSeparator(u)(s[n])
    ensures Text.Filter(u.isWord, s[..n]) == [] ==>
      HyphenWords(u, s) == HyphenWords(u, s[n..]) && KeptWords(u, s) == KeptWords(u, s[n..])
    ensures Text.Filter(u.isWord, s[..n]) != [] ==>
      && HyphenWords(u, s) == [Text.Filter(u.isWord, s[..n])] + HyphenWords(u, s[n..])
      && KeptWords(u, s) == [Text.Filter(u.isWord, s[..n])] + KeptWords(u, s[n..])
  {
    var sa, kept, sep := SlugAlphabet(u), SlugKept(u), SlugSeparator(u);
    var w, t := s[..n], s[n..];
    assert s == w + t;
    assert Text.Avoids(u.isSpace, w) by {
      forall i | 0 <= i < |w|
        ensures !u.isSpace(w[i])
      {
        assert !sep(w[i]);
      }
    }
    Text.CollapseAppendAvoiding(u.isSpace, '-', w, t);
    var ct := Text.CollapseRuns(u.isSpace, '-', t);
    assert ct == [] || ct[0] == '-' by {
      if t != [] {
        assert t[0] == s[n];
      }
    }
    FilterGapFree(u, w);
    var fw := Text.Filter(u.isWord, w);
    Text.FilterAppend(sa, w, ct);
    var rest := Text.Filter(sa, ct);
    assert rest == [] || rest[0] == '-' by {
      if ct != [] {
        assert ct == [ct[0]] + ct[1..];
        Text.FilterAppend(sa, [ct[0]], ct[1..]);
      }
    }
    Text.FilterAppend(kept, w, t);
    var krest := Text.Filter(kept, t);
    assert krest == [] || sep(krest[0]) by {
      if t != [] {
        assert sep(t[0]) by {
          assert t[0] == s[n];
        }
        assert t == [t[0]] + t[1..];
        Text.FilterAppend(kept, [t[0]], t[1..]);
      }
    }
    if fw == [] {
      assert [] + rest == rest && [] + krest == krest;
    } else {
      assert Text.Avoids(IsHyphen, fw) && Text.Avoids(sep, fw) by {
        forall i | 0 <= i < |fw|
          ensures !IsHyphen(fw[i]) && !sep(fw[i])
        {
          assert u.isWord(fw[i]);
        }
      }
      Text.SplitWordThen(IsHyphen, fw, rest);
      Text.SplitWordThen(sep, fw, krest);
    }
  }

  /** `SlugReference` read step by step. */
  lemma SlugFromWords(u: Unicode.CharClasses, s: string, kept: string, ws: seq<string>)
    requires Unicode.Valid(u)
    requires Text.Filter(SlugKept(u), s) == kept && Text.Split(SlugSeparator(u), kept) == ws
    ensures SlugOfLowered(u, s) == Text.Join("-", ws)
  {
    SlugReference(u, s);
  }

  /** A stretch of characters that are neither word characters, whitespace nor
      hyphens is deleted outright: between two words it joins them, so `"a!b"`
      slugs to `"ab"`, not `"a-b"`. */
  lemma PunctuationInWord(u: Unicode.CharClasses, a: string, x: string, b: string)
    requires Unicode.Valid(u)
    requires a != [] && Text.All(u.isWord, a) && b != [] && Text.All(u.isWord, b)
    requires Text.Avoids(SlugKept(u), x)
    ensures SlugOfLowered(u, a + x + b) == a + b
  {
    WordsKept(u, a);
    WordsKept(u, b);
    Text.FilterKeepDrop(SlugKept(u), a, x, b);
    Text.AllAppend(u.isWord, a, b);
    WordsKept(u, a + b);
    assert a + b + [] == a + b;
    Text.SplitWordThen(SlugSeparator(u), a + b, []);
    SlugFromWords(u, a + x + b, a + b, [a + b]);
  }

  /** Punctuation standing between two gaps of whitespace or hyphens vanishes
      with them into one hyphen, so `"rock & roll"` slugs to `"rock-roll"`. */
  lemma PunctuationBetweenWords(u: Unicode.CharClasses, a: string, g1: string, x: string,
                                g2: string, b: string)
    requires Unicode.Valid(u)
    requires a != [] && Text.All(u.isWord, a) && b != [] && Text.All(u.isWord, b)
    requires IsGap(u, g1) && IsGap(u, g2) && Text.Avoids(SlugKept(u), x)
    ensures SlugOfLowered(u, a + g1 + x + g2 + b) == a + "-" + b
  {
    KeptAroundPunctuation(u, a, g1, x, g2, b);
    WordsAroundGaps(u, a, g1 + g2, b);
    var ws := [a, b];
    assert ws[1..] == [b];
    Text.JoinUnfold("-", ws);
    SlugFromWords(u, a + g1 + x + g2 + b, a + (g1 + g2 + b), ws);
  }

  lemma KeptAroundPunctuation(u: Unicode.CharClasses, a: string, g1: string, x: string,
                              g2: string, b: string)
    requires Unicode.Valid(u)
    requires Text.All(u.isWord, a) && Text.All(u.isWord, b)
    requires IsGap(u, g1) && IsGap(u, g2) && Text.Avoids(SlugKept(u), x)
    ensures Text.Filter(SlugKept(u), a + g1 + x + g2 + b) == a + (g1 + g2 + b)
  {
    var k := SlugKept(u);
    WordsKept(u, a);
    WordsKept(u, b);
    GapKept(u, g1);
    GapKept(u, g2);
    var left, right := a + g1, g2 + b;
    Text.AllAppend(k, a, g1);
    Text.AllAppend(k, g2, b);
    Text.FilterKeepDrop(k, left, x, right);
    assert a + g1 + x + g2 + b == left + x + right;
    assert left + right == a + (g1 + g2 + b);
  }

  /** Two words around a non-empty stretch of separators split into those two words. */
  lemma WordsAroundGaps(u: Unicode.CharClasses, a: string, gaps: string, b: string)
    requires Unicode.Valid(u)
    requires a != [] && Text.All(u.isWord, a) && b != [] && Text.All(u.isWord, b)
    requires gaps != [] && forall i :: 0 <= i < |gaps| ==> u.isSpace(gaps[i]) || gaps[i] == '-'
    ensures Text.Split(SlugSeparator(u), a + (gaps + b)) == [a, b]
  {
    var sep := SlugSeparator(u);
    WordsKept(u, a);
    WordsKept(u, b);
    assert Text.All(sep, gaps);
    assert (gaps + b)[0] == gaps[0];
    Text.SplitWordThen(sep, a, gaps + b);
    Text.SplitDropPrefix(sep, gaps, b);
    assert b + [] == b;
    Text.SplitWordThen(sep, b, []);
  }

  /** Word characters are kept and are no separators. */
  lemma WordsKept(u: Unicode.CharClasses, w: string)
    requires Unicode.Valid(u) && Text.All(u.isWord, w)
    ensures Text.All(SlugKept(u), w) && Text.Avoids(SlugSeparator(u), w)
  {
    forall i | 0 <= i < |w|
      ensures SlugKept(u)(w[i]) && !SlugSeparator(u)(w[i])
    {
      assert u.isWord(w[i]);
    }
  }

  /** A gap is kept and consists of separators. */
  lemma GapKept(u: Unicode.CharClasses, g: string)
    requires IsGap(u, g)
    ensures Text.All(SlugKept(u), g) && Text.All(SlugSeparator(u), g)
  {
  }

  /** `"a!b"` slugs to `"ab"` under the ASCII classes. */
  lemma PunctuationInWordExample()
    ensures SlugOfLowered(Unicode.Ascii, "a!b") == "ab"
  {
    Unicode.AsciiValid();
    AsciiPieces();
    assert "a!b" == "a" + "!" + "b" && "a" + "b" == "ab";
    PunctuationInWord(Unicode.Ascii, "a", "!", "b");
  }

  /** The ASCII class facts the punctuation examples use. */
  lemma AsciiPieces()
    ensures Text.Avoids(SlugKept(Unicode.Ascii), "!") && Text.Avoids(SlugKept(Unicode.Ascii), "&")
    ensures Text.All(Unicode.Ascii.isWord, "a") && Text.All(Unicode.Ascii.isWord, "b")
    ensures Text.All(Unicode.Ascii.isWord, "rock") && Text.All(Unicode.Ascii.isWord, "roll")
    ensures IsGap(Unicode.Ascii, " ")
  {
    assert !Unicode.AsciiSpace('!') && !Unicode.AsciiWord('!');
    assert !Unicode.AsciiSpace('&') && !Unicode.AsciiWord('&');
  }

  /** `"rock & roll"` slugs to `"rock-roll"` under the ASCII classes. */
  lemma PunctuationBetweenWordsExample()
    ensures SlugOfLowered(Unicode.Ascii, "rock & roll") == "rock-roll"
  {
    Unicode.AsciiValid();
    AsciiPieces();
    assert "rock & roll" == "rock" + " " + "&" + " " + "roll";
    assert "rock" + "-" + "roll" == "rock-roll";
    PunctuationBetweenWords(Unicode.Ascii, "rock", " ", "&", " ", "roll");
  }

  /** `"a-b  --c"` (already lowercased) slugs to `"a-b-c"`. */
  lemma SlugOfSeparatedExample()
    ensures SlugOfLowered(Unicode.Ascii, "a-b  --c") == "a-b-c"
  {
    Unicode.AsciiValid();
    var ws, gaps := ["a", "b", "c"], ["-", "  --"];
    assert Text.All(Unicode.Ascii.isWord, ws[0]) && Text.All(Unicode.Ascii.isWord, ws[1])
      && Text.All(Unicode.Ascii.isWord, ws[2]);
    assert IsGap(Unicode.Ascii, gaps[0]) && IsGap(Unicode.Ascii, gaps[1]);
    assert ws[1..] == ["b", "c"] && ws[1..][1..] == ["c"];
    assert gaps[1..] == ["  --"];
    assert Text.Weave(ws, gaps) == "a-b  --c";
    assert Text.Join("-", ws) == "a-b-c";
    SlugOfSeparatedWords(Unicode.Ascii, ws, gaps);
  }

  lemma ExampleJoins()
    ensures Text.Join(" ", ["best", "coffee", "machines"]) == "best coffee machines"
    ensures Text.Join("-", ["best", "coffee", "machines"]) == "best-coffee-machines"
  {
    ExampleJoin(" ");
    ExampleJoin("-");
  }

  lemma ExampleJoin(sep: string)
    ensures Text.Join(sep, ["best", "coffee", "machines"]) == "best" + sep + "coffee" + sep + "machines"
  {
    var ws := ["best", "coffee", "machines"];
    assert ws[1..] == ["coffee", "machines"] && ws[1..][1..] == ["machines"];
    Text.JoinUnfold(sep, ws);
    Text.JoinUnfold(sep, ws[1..]);
  }

  /** The example's three words are made of ASCII word characters. */
  lemma ExampleWords()
    ensures var ws := ["best", "coffee", "machines"];
      forall i :: 0 <= i < |ws| ==> ws[i] != [] && Text.All(Unicode.Ascii.isWord, ws[i])
  {
    var ws := ["best", "coffee", "machines"];
    assert Text.All(Unicode.Ascii.isWord, ws[0]) && Text.All(Unicode.Ascii.isWord, ws[1])
      && Text.All(Unicode.Ascii.isWord, ws[2]);
  }

  /** Already lowercased, `"best coffee machines"` slugs to `"best-coffee-machines"`. */
  lemma SlugOfLoweredExample()
    ensures SlugOfLowered(Unicode.Ascii, "best coffee machines") == "best-coffee-machines"
  {
    Unicode.AsciiValid();
    var ws := ["best", "coffee", "machines"];
    ExampleWords();
    ExampleJoins();
    SlugOfSpacedWords(Unicode.Ascii, ws);
  }

  lemma LowerExample()
    ensures Unicode.Ascii.lower("Best Coffee Machines") == "best coffee machines"
  {
    var s := "Best Coffee Machines";
    var r := Unicode.Ascii.lower(s);
    assert |r| == 20;
    forall i | 0 <= i < 20
      ensures r[i] == "best coffee machines"[i]
    {
      assert r[i] == Unicode.AsciiLowerChar(s[i]);
    }
  }

  /** The example `_slugify("Best Coffee Machines") == "best-coffee-machines"`. */
  lemma SlugExample()
    ensures Slugify(Unicode.Ascii, "Best Coffee Machines") == "best-coffee-machines"
  {
    Unicode.AsciiValid();
    LowerExample();
    SlugOfLoweredExample();
  }

  // ---------------------------------------------------------------------
  // Dates and file names

  /** A calendar date as `datetime.now()` supplies it. */
  datatype Date = Date(year: int, month: int, day: int)

  predicate IsLeapYear(y: int) {
    y % 4 == 0 && (y % 100 != 0 || y % 400 == 0)
  }

  function DaysInMonth(y: int, m: int): int {
    if m == 2 then (if IsLeapYear(y) then 29 else 28)
    else if m == 4 || m == 6 || m == 9 || m == 11 then 30
    else 31
  }

  /** The dates `datetime` can represent. */
  predicate ValidDate(d: Date) {
    && 1 <= d.year <= 9999
    && 1 <= d.month <= 12
    && 1 <= d.day <= DaysInMonth(d.year, d.month)
  }

  lemma Pow10Widths()
    ensures Decimal.Pow10(4) == 10000 && Decimal.Pow10(2) == 100
  {
    assert Decimal.Pow10(1) == 10;
    assert Decimal.Pow10(3) == 1000;
  }

  /** `strftime("%Y-%m-%d")`. */
  function DateStamp(d: Date): (r: string)
    requires ValidDate(d)
    ensures |r| == 10
  {
    Pow10Widths();
    Decimal.Padded(d.year, 4) + "-" + Decimal.Padded(d.month, 2) + "-" + Decimal.Padded(d.day, 2)
  }

  /** Read a `YYYY-MM-DD` stamp back. */
  function ParseDateStamp(s: string): Option<Date> {
    if |s| == 10 && s[4] == '-' && s[7] == '-'
       && Decimal.AllDigits(s[..4]) && Decimal.AllDigits(s[5..7]) && Decimal.AllDigits(s[8..])
    then Some(Date(Decimal.Value(s[..4]), Decimal.Value(s[5..7]), Decimal.Value(s[8..])))
    else None
  }

  /** Three digit fields of widths 4, 2 and 2 joined by `-` parse as their values. */
  lemma ParseFields(y: string, m: string, dd: string)
    requires |y| == 4 && |m| == 2 && |dd| == 2
    requires Decimal.AllDigits(y) && Decimal.AllDigits(m) && Decimal.AllDigits(dd)
    ensures ParseDateStamp(y + "-" + m + "-" + dd)
      == Some(Date(Decimal.Value(y), Decimal.Value(m), Decimal.Value(dd)))
  {
    var s := y + "-" + m + "-" + dd;
    assert |s| == 10 && s[4] == '-' && s[7] == '-';
    var a, b, c := s[..4], s[5..7], s[8..];
    assert a == y && b == m && c == dd;
    assert ParseDateStamp(s) == Some(Date(Decimal.Value(a), Decimal.Value(b), Decimal.Value(c)));
  }

  lemma DateStampRoundTrip(d: Date)
    requires ValidDate(d)
    ensures ParseDateStamp(DateStamp(d)) == Some(d)
  {
    Pow10Widths();
    Decimal.PaddedRoundTrip(d.year, 4);
    Decimal.PaddedRoundTrip(d.month, 2);
    Decimal.PaddedRoundTrip(d.day, 2);
    ParseFields(Decimal.Padded(d.year, 4), Decimal.Padded(d.month, 2), Decimal.Padded(d.day, 2));
  }

  /** The `extension` of `save_article` when the caller gives none. */
  const DefaultExtension: string := "md"

  /** `f"{slug}-{date_str}.{extension}"`. */
  function FileNameOf(slug: string, d: Date, ext: string): (r: string)
    requires ValidDate(d)
    ensures |r| == |slug| + 12 + |ext|
    ensures r[..|slug|] == slug && r[|slug|] == '-' && r[|slug| + 11] == '.'
    ensures r[|slug| + 1..|slug| + 11] == DateStamp(d) && r[|slug| + 12..] == ext
  {
    slug + "-" + DateStamp(d) + "." + ext
  }

  /** Take a file name apart again, given its extension: the slug and the date. */
  function SplitFileName(name: string, ext: string): Option<(string, Date)> {
    var n := |name|;
    var k := |ext|;
    if n >= k + 12 && name[n - k..] == ext && name[n - k - 1] == '.' && name[n - k - 12] == '-' then
      match ParseDateStamp(name[n - k - 11..n - k - 1])
      case Some(d) => Some((name[..n - k - 12], d))
      case None => None
    else None
  }

  /** The file name determines the slug and the date it was made from. */
  lemma FileNameRoundTrip(slug: string, d: Date, ext: string)
    requires ValidDate(d)
    ensures SplitFileName(FileNameOf(slug, d, ext), ext) == Some((slug, d))
  {
    var stamp := DateStamp(d);
    var name := FileNameOf(slug, d, ext);
    var n := |name|;
    var k := |ext|;
    assert name == slug + "-" + stamp + "." + ext;
    assert n == |slug| + 12 + k;
    assert name[n - k..] == ext;
    assert name[n - k - 1] == '.';
    assert name[n - k - 12] == '-';
    assert name[n - k - 11..n - k - 1] == stamp;
    assert name[..n - k - 12] == slug;
    DateStampRoundTrip(d);
  }

  /** The name `save_article` writes for a keyword on a date. It is relative,
      so joining it to the output directory lands inside that directory. */
  function FileName(u: Unicode.CharClasses, keyword: string, d: Date, ext: string := DefaultExtension): (r: string)
    requires Unicode.Valid(u) && ValidDate(d)
    ensures r != [] && r[0] != '/'
  {
    var slug := Slugify(u, keyword);
    assert slug != [] ==> SlugAlphabet(u)(slug[0]);
    FileNameOf(slug, d, ext)
  }

  /** The file name gives back the keyword's slug and the date. */
  lemma FileNameIdentifies(u: Unicode.CharClasses, keyword: string, d: Date, ext: string)
    requires Unicode.Valid(u) && ValidDate(d)
    ensures SplitFileName(FileName(u, keyword, d, ext), ext) == Some((Slugify(u, keyword), d))
  {
    FileNameRoundTrip(Slugify(u, keyword), d, ext);
  }

  /** `os.path.join(dir, name)` on POSIX. */
  function JoinPath(dir: string, name: string): (r: string)
    ensures |name| <= |r| && r[|r| - |name|..] == name
    ensures name != [] && name[0] == '/' ==> r == name
    ensures name == [] || name[0] != '/' ==> PathBelow(dir, name, r)
  {
    if name != [] && name[0] == '/' then name
    else if dir == [] || dir[|dir| - 1] == '/' then dir + name
    else dir + "/" + name
  }

  /** The output of `save_article`: the path written and the files afterwards. */
  datatype Saved = Saved(path: string, files: map<string, string>)

  /** `path` names the file `name` inside the directory `dir`. */
  predicate PathBelow(dir: string, name: string, path: string) {
    && |dir| + |name| <= |path|
    && path[|path| - |name|..] == name
    && path[..|dir|] == dir
    && (dir == [] || dir[|dir| - 1] == '/' ==> path == dir + name)
    && (dir != [] && dir[|dir| - 1] != '/' ==> path == dir + "/" + name)
  }

  /** Below a directory, a name that is not absolute lands inside it. */
  lemma JoinPathBelow(dir: string, name: string)
    requires name != [] && name[0] != '/'
    ensures PathBelow(dir, name, JoinPath(dir, name))
  {
  }

  /** The path `save_article` writes for a keyword on a date: the named file
      inside `dir`. It depends on the directory, keyword, date and extension
      only, never on the content or on what the directory already holds. */
  function TargetPath(u: Unicode.CharClasses, dir: string, keyword: string, d: Date,
                      ext: string := DefaultExtension): (r: string)
    requires Unicode.Valid(u) && ValidDate(d)
    ensures PathBelow(dir, FileName(u, keyword, d, ext), r)
  {
    var name := FileName(u, keyword, d, ext);
    JoinPathBelow(dir, name);
    JoinPath(dir, name)
  }

  /** `save_article`: write `content` as the whole of the file at `TargetPath`.
      That file now holds `content`, and no other file changes. */
  function SaveArticle(u: Unicode.CharClasses, files: map<string, string>, dir: string,
                       keyword: string, content: string, d: Date,
                       ext: string := DefaultExtension): (r: Saved)
    requires Unicode.Valid(u) && ValidDate(d)
    ensures r.path == TargetPath(u, dir, keyword, d, ext)
    ensures r.files.Keys == files.Keys + {r.path}
    ensures r.files[r.path] == content
    ensures forall p :: p in files && p != r.path ==> r.files[p] == files[p]
  {
    var path := TargetPath(u, dir, keyword, d, ext);
    Saved(path, files[path := content])
  }

  /** Called without an extension, as the command-line entry point calls it,
      `save_article` writes a Markdown file: the path ends in `.md`. */
  lemma DefaultSavesMarkdown(u: Unicode.CharClasses, files: map<string, string>, dir: string,
                             keyword: string, content: string, d: Date)
    requires Unicode.Valid(u) && ValidDate(d)
    ensures var path := SaveArticle(u, files, dir, keyword, content, d).path;
      |path| >= 3 && path[|path| - 3..] == ".md"
  {
    DefaultTargetMarkdown(u, dir, keyword, d);
  }

  lemma DefaultTargetMarkdown(u: Unicode.CharClasses, dir: string, keyword: string, d: Date)
    requires Unicode.Valid(u) && ValidDate(d)
    ensures var path := TargetPath(u, dir, keyword, d);
      |path| >= 3 && path[|path| - 3..] == ".md"
  {
    DefaultFileName(u, keyword, d);
    PathSuffix(dir, FileName(u, keyword, d), TargetPath(u, dir, keyword, d), ".md");
  }

  /** A path below a directory ends with whatever the name ends with. */
  lemma PathSuffix(dir: string, name: string, path: string, e: string)
    requires PathBelow(dir, name, path)
    requires |e| <= |name| && name[|name| - |e|..] == e
    ensures |e| <= |path| && path[|path| - |e|..] == e
  {
    SuffixOfSuffix(path, name, e);
  }

  /** The default file name is `<slug>-<YYYY-MM-DD>.md`: it ends in `.md`, and
      it gives back the slug and the date. */
  lemma DefaultFileName(u: Unicode.CharClasses, keyword: string, d: Date)
    requires Unicode.Valid(u) && ValidDate(d)
    ensures var name := FileName(u, keyword, d);
      |name| >= 3 && name[|name| - 3..] == ".md"
    ensures SplitFileName(FileName(u, keyword, d), "md") == Some((Slugify(u, keyword), d))
  {
    FileNameEnds(u, keyword, d, DefaultExtension);
    FileNameIdentifies(u, keyword, d, DefaultExtension);
  }

  /** The file name ends with the dot and the extension. */
  lemma FileNameEnds(u: Unicode.CharClasses, keyword: string, d: Date, ext: string)
    requires Unicode.Valid(u) && ValidDate(d)
    ensures var name := FileName(u, keyword, d, ext);
      |name| > |ext| && name[|name| - |ext| - 1..] == "." + ext
  {
  }

  lemma SuffixOfSuffix(s: string, t: string, e: string)
    requires |t| <= |s| && s[|s| - |t|..] == t
    requires |e| <= |t| && t[|t| - |e|..] == e
    ensures s[|s| - |e|..] == e
  {
    assert s[|s| - |e|..] == s[|s| - |t|..][|t| - |e|..];
  }

  /** A same-day rerun with the same keyword targets the same path and replaces
      the first article instead of adding a second file. */
  lemma RerunOverwrites(u: Unicode.CharClasses, files: map<string, string>, dir: string,
                        keyword: string, first: string, second: string, d: Date, ext: string)
    requires Unicode.Valid(u) && ValidDate(d)
    ensures var one := SaveArticle(u, files, dir, keyword, first, d, ext);
      var two := SaveArticle(u, one.files, dir, keyword, second, d, ext);
      && two.path == one.path
      && two.files == files[one.path := second]
      && |two.files.Keys| <= |files.Keys| + 1
  {
    var p := TargetPath(u, dir, keyword, d, ext);
    var once := files[p := first];
    assert SaveArticle(u, files, dir, keyword, first, d, ext) == Saved(p, once);
    assert SaveArticle(u, once, dir, keyword, second, d, ext) == Saved(p, once[p := second]);
    OverwriteTwice(files, p, first, second);
  }

  /** Writing a path twice leaves what the second write put there, and adds
      at most that one path. */
  lemma OverwriteTwice(files: map<string, string>, p: string, first: string, second: string)
    ensures files[p := first][p := second] == files[p := second]
    ensures |files[p := second].Keys| <= |files.Keys| + 1
  {
    assert files[p := second].Keys == files.Keys + {p};
    assert |files.Keys + {p}| <= |files.Keys| + 1;
  }
}
