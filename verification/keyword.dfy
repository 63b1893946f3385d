/** Keyword normalisation and validation (`InputHandler` in
    app/input/handler.py): whitespace runs collapse to single spaces, an empty
    keyword and one of more than `Settings.MaxKeywordWords` words are rejected. */
module KeywordInput {
  import opened Results
  import Text
  import Unicode
  import Settings
  import Decimal

  /** The two `ValueError`s `validate_keyword` raises. */
  datatype KeywordError = EmptyKeyword | TooManyWords(count: nat, limit: nat)

  /** The text of the raised `ValueError`: a sentence about the keyword. */
  function Message(e: KeywordError): (r: string)
    ensures |r| > 21 && r[..8] == "Keyword " && r[|r| - 1] == '.'
    ensures e.EmptyKeyword? <==> r[8] == 'c'
  {
    match e
    case EmptyKeyword => "Keyword cannot be empty."
    case TooManyWords(count, limit) =>
      "Keyword is too long (" + Decimal.Show(count) + " words). Max allowed is "
      + Decimal.Show(limit) + "."
  }

  /** Different errors give different messages: the message tells which
      check failed and, for a keyword that is too long, the count and limit. */
  lemma MessageInjective(e1: KeywordError, e2: KeywordError)
    requires Message(e1) == Message(e2)
    ensures e1 == e2
  {
    if e1.TooManyWords? && e2.TooManyWords? {
      var b := " words). Max allowed is ";
      var c1, l1 := Decimal.Show(e1.count), Decimal.Show(e1.limit);
      var c2, l2 := Decimal.Show(e2.count), Decimal.Show(e2.limit);
      TooLongFields(e1.count, e1.limit);
      TooLongFields(e2.count, e2.limit);
      Decimal.DigitsThenOther(c1, b + l1 + ".", c2, b + l2 + ".");
      LimitField(b, l1, l2);
      Decimal.DigitsThenOther(l1, ".", l2, ".");
      Decimal.ShowRoundTrip(e1.count);
      Decimal.ShowRoundTrip(e2.count);
      Decimal.ShowRoundTrip(e1.limit);
      Decimal.ShowRoundTrip(e2.limit);
    }
  }

  /** After its fixed 21-character opening, the too-long message is the count,
      the fixed middle, the limit and the closing full stop. */
  lemma TooLongFields(count: nat, limit: nat)
    ensures Message(TooManyWords(count, limit))[21..]
      == Decimal.Show(count) + (" words). Max allowed is " + Decimal.Show(limit) + ".")
  {
    var a := "Keyword is too long (";
    var c, l := Decimal.Show(count), Decimal.Show(limit);
    var rest := " words). Max allowed is " + l + ".";
    assert Message(TooManyWords(count, limit)) == a + (c + rest);
    assert |a| == 21;
  }

  lemma LimitField(b: string, l1: string, l2: string)
    requires b + l1 + "." == b + l2 + "."
    ensures l1 + "." == l2 + "."
  {
    assert l1 + "." == (b + l1 + ".")[|b|..];
    assert l2 + "." == (b + l2 + ".")[|b|..];
  }

  /** `s.split()`: the whitespace-separated words of `s`. */
  function WordsOf(u: Unicode.CharClasses, s: string): seq<string> {
    Text.Split(u.isSpace, s)
  }

  /** `s` is already normalised: single spaces between words, none at the ends. */
  predicate Normalised(u: Unicode.CharClasses, s: string) {
    Text.SingleSeparated(u.isSpace, ' ', s)
  }

  /** `cleanup_keyword`: `" ".join(keyword.strip().split())`, with the empty
      string short-circuited. The result is normalised and has the same words
      as the input. */
  function Cleanup(u: Unicode.CharClasses, keyword: string): (r: string)
    requires Unicode.Valid(u)
    ensures WordsOf(u, r) == WordsOf(u, keyword)
    ensures Normalised(u, r)
    ensures r == [] <==> WordsOf(u, keyword) == []
    ensures keyword == [] ==> r == []
  {
    if keyword == [] then []
    else
      var ws := Text.Split(u.isSpace, Text.Trim(u.isSpace, keyword));
      Text.SplitTrim(u.isSpace, keyword);
      Text.SplitJoin(u.isSpace, ' ', ws);
      Text.JoinShape(u.isSpace, ' ', ws);
      Text.Join(" ", ws)
  }

  /** The fixed points of `Cleanup` are exactly the normalised strings. */
  lemma CleanupFixedPoints(u: Unicode.CharClasses, s: string)
    requires Unicode.Valid(u)
    ensures Cleanup(u, s) == s <==> Normalised(u, s)
  {
    if Normalised(u, s) && s != [] {
      Text.TrimIdentity(u.isSpace, s);
      Text.JoinSplit(u.isSpace, ' ', s);
    }
  }

  /** Cleaning a cleaned keyword changes nothing. */
  lemma CleanupIdempotent(u: Unicode.CharClasses, keyword: string)
    requires Unicode.Valid(u)
    ensures Cleanup(u, Cleanup(u, keyword)) == Cleanup(u, keyword)
  {
    CleanupFixedPoints(u, Cleanup(u, keyword));
  }

  /** `validate_keyword`: `Success(true)`, or the error it raises. The verdict
      depends only on the number of whitespace-separated words of the input. */
  function Validate(u: Unicode.CharClasses, keyword: string): (r: Result<bool, KeywordError>)
    requires Unicode.Valid(u)
    ensures r == Failure(EmptyKeyword) <==> WordsOf(u, keyword) == []
    ensures (r.Failure? && r.error.TooManyWords?) <==> |WordsOf(u, keyword)| > Settings.MaxKeywordWords
    ensures r.Failure? && r.error.TooManyWords? ==>
      r.error == TooManyWords(|WordsOf(u, keyword)|, Settings.MaxKeywordWords)
    ensures r == Success(true) <==> 1 <= |WordsOf(u, keyword)| <= Settings.MaxKeywordWords
    ensures r.Success? ==> r.value
  {
    var cleaned := Cleanup(u, keyword);
    if cleaned == [] then Failure(EmptyKeyword)
    else
      var count := |WordsOf(u, cleaned)|;
      if count > Settings.MaxKeywordWords then
        Failure(TooManyWords(count, Settings.MaxKeywordWords))
      else
        Success(true)
  }

  /** `process`: clean, validate the cleaned form, return it. On success the
      result is the cleaned input; on failure the error is the one validating
      the raw input gives, so cleaning first never changes the verdict. */
  function Process(u: Unicode.CharClasses, keyword: string): (r: Result<string, KeywordError>)
    requires Unicode.Valid(u)
    ensures r.Success? <==> 1 <= |WordsOf(u, keyword)| <= Settings.MaxKeywordWords
    ensures r.Success? ==> r.value == Cleanup(u, keyword)
    ensures r.Success? ==> Normalised(u, r.value) && WordsOf(u, r.value) == WordsOf(u, keyword)
    ensures r.Failure? ==> Validate(u, keyword) == Failure(r.error)
  {
    var cleaned := Cleanup(u, keyword);
    match Validate(u, cleaned)
    case Failure(e) => Failure(e)
    case Success(_) => Success(cleaned)
  }

  lemma FieldsOfFive(a: string, c: string, b: string, l: string, e: string)
    ensures var m := a + c + b + l + e;
      && m[|a|..|a| + |c|] == c
      && m[|a| + |c| + |b|..|a| + |c| + |b| + |l|] == l
  {
  }

  /** The too-long message spells out the observed count and the limit in decimal. */
  lemma MessageCarriesCounts(count: nat, limit: nat)
    ensures
      var m := Message(TooManyWords(count, limit));
      var c := Decimal.Show(count);
      var l := Decimal.Show(limit);
      && m[21..21 + |c|] == c && Decimal.Value(c) == count
      && m[21 + |c| + 24..21 + |c| + 24 + |l|] == l && Decimal.Value(l) == limit
  {
    var a := "Keyword is too long (";
    var b := " words). Max allowed is ";
    assert |a| == 21 && |b| == 24;
    FieldsOfFive(a, Decimal.Show(count), b, Decimal.Show(limit), ".");
    Decimal.ShowRoundTrip(count);
    Decimal.ShowRoundTrip(limit);
  }
}
