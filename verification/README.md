# ai-seo-writer: a Dafny model of its deterministic core

ai-seo-writer turns a keyword into a Markdown article. It runs in five stages:

- the keyword is normalised and validated;
- the web is searched;
- a generative model is asked for a content plan;
- a second call writes the article;
- the result is saved under a slug-and-date file name.

This project models the four deterministic parts of that pipeline as pure
Dafny functions and proves what they guarantee.

- **Keyword input** (`keyword.dfy`, module `KeywordInput`) models `InputHandler`:
  - `cleanup_keyword` collapses whitespace runs to single spaces and trims.
  - `validate_keyword` rejects an empty keyword and one of more than six words.
  - `process` cleans, validates and returns the cleaned keyword.
  - Raised `ValueError`s are `Failure(KeywordError)` values.
- **Slugs and file names** (`exporter.dfy`, module `FileExport`) models `FileExporter`:
  - `_slugify` lowercases, turns whitespace runs into `-`, keeps word characters and `-`, collapses `-` runs and strips `-`.
  - Other punctuation is deleted where it stands, so `"a!b"` becomes `ab` while `"rock & roll"` becomes `rock-roll`.
  - The name is `<slug>-<YYYY-MM-DD>.<ext>`, with `md` as the default extension.
  - `save_article` writes the article to that name inside the output directory. The directory is a map from paths to contents.
- **Plan extraction** (`planner.dfy`, module `Planner`) models `ContentPlanner.create_plan` from the model's reply onward:
  - the reply is cut from its first `{` to its last `}`;
  - the cut is handed to a JSON parser;
  - a fixed three-section plan is returned when there is no `{` or the cut does not parse.

  The parser is a parameter: an oracle from strings to optional JSON values. The provider's reply is a `Result`: a provider error propagates, and a parse error never does. The snippet block of the prompt (`"\n\n".join(...)`) is modelled with its layout.
- **Research shaping** (`research.dfy`, module `Research`) models `ResearchEngine.search` after the search provider:
  - the provider's answer is a `SearchReply`: it raised, it was falsy, or it was a stream of records that may end in an exception;
  - each record becomes a `{title, href, body}` entry, with missing fields as `""`;
  - the result is the three parallel lists plus the raw list;
  - a provider failure keeps the entries gathered before it, because `results` is declared outside the `try` (ai-seo-writer/app/research/engine.py:12), so a failed search is not always empty.

Shared pieces:

- `text.dfy` (module `Text`) holds the Python string operations over `seq<char>`: `strip`, `split`, `join`, `find`, `rfind`, run-collapsing `re.sub` and character filtering. A character class is a parameter.
- `unicode.dfy` holds the `\s`/`\w`/`str.lower` oracle and its validity conditions.
- `decimal.dfy` holds `str(n)` and zero-padded date fields.
- `settings.dfy` holds `MAX_KEYWORD_WORDS` = 6.
- `results.dfy` holds `Option` and `Result`.

Two observations about the code, both proved in the model:

- The `end != -1` test of ai-seo-writer/app/planner/planner.py:39 never fails, because `end` is `rfind(...) + 1`. See `Planner.Candidate`.
- The slug is empty exactly when the lowercased keyword has no word character (`FileExport.EmptySlug`). Such a keyword can still pass validation: `"!!!"` is one word, validates, and slugs to "" (`FileExport.PunctuationSlugExample`). The file is then named `-<date>.md`.

## Model

| member | source | states |
|---|---|---|
| KeywordInput.Cleanup | ai-seo-writer/app/input/handler.py:6-13 | the cleaned keyword has the same whitespace-separated words as the input, single spaces between them and none at the ends; it is empty exactly when the input has no words, and an empty input cleans to "" |
| KeywordInput.CleanupFixedPoints | ai-seo-writer/app/input/handler.py:6-13 | cleaning leaves a string unchanged exactly when it is already normalised |
| KeywordInput.CleanupIdempotent | ai-seo-writer/app/input/handler.py:6-13 | cleaning a cleaned keyword returns it unchanged |
| KeywordInput.Validate | ai-seo-writer/app/input/handler.py:16-31 | the empty-keyword error exactly when there are no words; the too-long error, carrying the count and the limit 6, exactly when there are more than 6 words; True exactly when there are 1 to 6 words |
| KeywordInput.Process | ai-seo-writer/app/input/handler.py:34-41 | succeeds exactly when the input has 1 to 6 words, then returns the cleaned keyword; on failure the error equals the one validating the raw input gives, so cleaning first never changes the verdict |
| KeywordInput.Message | ai-seo-writer/app/input/handler.py:25-29 | each error message is a sentence opening with "Keyword " and ending in '.', and its ninth character tells the empty-keyword message from the too-long one |
| KeywordInput.MessageInjective | ai-seo-writer/app/input/handler.py:25-29 | different errors give different messages: the message determines which check failed and, when too long, the word count and the limit |
| KeywordInput.MessageCarriesCounts | ai-seo-writer/app/input/handler.py:27-29 | the too-long message spells the observed count and the limit in decimal, at fixed positions, and both read back as the numbers |
| Decimal.Show | ai-seo-writer/app/input/handler.py:29 | `str(n)` of a natural number is a non-empty digit string with no leading zero except in "0", and starts with '0' exactly for 0 |
| Decimal.ShowRoundTrip | ai-seo-writer/app/input/handler.py:29 | the decimal spelling of `n` denotes `n` |
| Decimal.Padded | ai-seo-writer/app/exporter/file_exporter.py:13 | a zero-padded field has exactly the requested width and only digits |
| Decimal.PaddedRoundTrip | ai-seo-writer/app/exporter/file_exporter.py:13 | a zero-padded field denotes the number it was made from |
| FileExport.Slugify | ai-seo-writer/app/exporter/file_exporter.py:22-37 | the slug holds only word characters and `-`, neither starts nor ends with `-`, has no `--`, and its word characters are exactly those of the lowercased keyword, in order |
| FileExport.SlugOfLowered | ai-seo-writer/app/exporter/file_exporter.py:30-36 | the same guarantees for the steps after lowercasing; `FileExport.SlugReference` determines the result completely |
| FileExport.SlugReference | ai-seo-writer/app/exporter/file_exporter.py:30-36 | for every lowercased text, the slug is the `-`-join of the words left once every character that is not a word character, whitespace or `-` is deleted, splitting at runs of whitespace and `-`; this pins where every hyphen goes |
| FileExport.HyphenWordsAreKeptWords | ai-seo-writer/app/exporter/file_exporter.py:30-34 | turning whitespace runs into `-` and then deleting other characters splits at hyphens into the same words as deleting first and splitting at whitespace and `-` |
| FileExport.PunctuationInWord | ai-seo-writer/app/exporter/file_exporter.py:34 | characters that are neither word characters, whitespace nor `-` are deleted, never turned into a hyphen: two words around them are glued together |
| FileExport.PunctuationBetweenWords | ai-seo-writer/app/exporter/file_exporter.py:30-36 | such characters between two gaps of whitespace or `-` vanish, and the two gaps become one `-` |
| FileExport.PunctuationInWordExample | ai-seo-writer/app/exporter/file_exporter.py:34 | with ASCII character classes, "a!b" slugs to "ab" |
| FileExport.PunctuationBetweenWordsExample | ai-seo-writer/app/exporter/file_exporter.py:30-36 | with ASCII character classes, "rock & roll" slugs to "rock-roll" |
| FileExport.TrimmedIsSlug | ai-seo-writer/app/exporter/file_exporter.py:36 | stripping `-` from a collapsed string over the slug alphabet leaves a well-formed slug |
| FileExport.SlugStepsKeepWords | ai-seo-writer/app/exporter/file_exporter.py:30-36 | no step after lowercasing drops, adds or reorders a word character |
| FileExport.SlugFixedPoints | ai-seo-writer/app/exporter/file_exporter.py:30-36 | the steps after lowercasing leave a string unchanged exactly when it is already a well-formed slug |
| FileExport.SlugOfSpacedWords | ai-seo-writer/app/exporter/file_exporter.py:30-36 | words of word characters separated by single spaces become the same words joined by `-` |
| FileExport.SlugOfSeparatedWords | ai-seo-writer/app/exporter/file_exporter.py:30-36 | words of word characters separated by any non-empty runs of whitespace and `-` become the same words joined by single `-`: every such run, however long, becomes one hyphen |
| FileExport.SlugOfSeparatedExample | ai-seo-writer/app/exporter/file_exporter.py:30-36 | with ASCII character classes, "a-b  --c" slugs to "a-b-c" |
| FileExport.EmptySlug | ai-seo-writer/app/exporter/file_exporter.py:22-37 | the slug is "" exactly when the lowercased keyword has no word character |
| FileExport.PunctuationSlugExample | ai-seo-writer/app/exporter/file_exporter.py:22-37 | with ASCII character classes, "!!!" passes keyword validation as one word, yet its slug is "" |
| FileExport.SlugExample | ai-seo-writer/app/exporter/file_exporter.py:22-37 | with ASCII character classes, "Best Coffee Machines" slugs to "best-coffee-machines" |
| FileExport.DateStamp | ai-seo-writer/app/exporter/file_exporter.py:13 | the date stamp has exactly ten characters |
| FileExport.DateStampRoundTrip | ai-seo-writer/app/exporter/file_exporter.py:13 | the `YYYY-MM-DD` stamp of a valid date reads back as that date |
| FileExport.FileNameOf | ai-seo-writer/app/exporter/file_exporter.py:14 | the name is the slug, `-`, the ten-character date stamp, `.` and the extension, at fixed positions, and nothing else |
| FileExport.FileNameRoundTrip | ai-seo-writer/app/exporter/file_exporter.py:14 | a name `<slug>-<stamp>.<ext>` splits back into exactly that slug and date, whatever the slug |
| FileExport.FileName | ai-seo-writer/app/exporter/file_exporter.py:11-14 | the file name is non-empty and not absolute; the extension defaults to "md" |
| FileExport.FileNameIdentifies | ai-seo-writer/app/exporter/file_exporter.py:12-14 | the file name determines the keyword's slug and the date |
| FileExport.JoinPath | ai-seo-writer/app/exporter/file_exporter.py:15 | POSIX `os.path.join` always ends with the name; an absolute name replaces the directory, and any other name is appended to the directory, with a `/` inserted only when the directory is non-empty and does not end in `/` |
| FileExport.JoinPathBelow | ai-seo-writer/app/exporter/file_exporter.py:15 | POSIX `os.path.join` of a directory and a relative name starts with the directory and ends with the name, exactly `dir + name` when the directory is empty or ends in `/`, and `dir + "/" + name` otherwise |
| FileExport.TargetPath | ai-seo-writer/app/exporter/file_exporter.py:12-15 | the path written is exactly the output directory joined to the keyword's file name (one `/` between them, none added after a trailing `/`), and depends only on directory, keyword, date and extension |
| FileExport.SaveArticle | ai-seo-writer/app/exporter/file_exporter.py:11-20 | the returned path is the target path, the file there holds exactly the content, no other file changes and no other file appears |
| FileExport.DefaultFileName | ai-seo-writer/app/exporter/file_exporter.py:11-14 | without an extension argument the name ends in ".md" and still gives back the slug and the date |
| FileExport.DefaultTargetMarkdown | ai-seo-writer/app/exporter/file_exporter.py:11-15 | without an extension argument the target path ends in ".md" |
| FileExport.DefaultSavesMarkdown | ai-seo-writer/app/exporter/file_exporter.py:11-20 | `save_article(keyword, content)` with no extension, as the entry point calls it, writes a path ending in ".md" |
| FileExport.RerunOverwrites | ai-seo-writer/app/exporter/file_exporter.py:14-18 | a same-day rerun with the same keyword writes the same path, and the directory ends up as if only the second article had been saved |
| Planner.FallbackPlan | ai-seo-writer/app/planner/planner.py:48-57 | the fallback plan has exactly the keys main_topic, search_intent, outline and secondary_keywords, and so no target_audience; the topic is "Comprehensive Guide to " + keyword and the intent "Informational"; the headings are Introduction, Main Concepts and Conclusion, in that order, each with no subheadings; the secondary keywords are [keyword] |
| Planner.FallbackOutline | ai-seo-writer/app/planner/planner.py:51-55 | the fallback outline has three sections, headed Introduction, Main Concepts and Conclusion in that order, each with an empty list of subheadings |
| Planner.Candidate | ai-seo-writer/app/planner/planner.py:37-40 | there is no candidate exactly when the reply has no `{`, so the `end != -1` test never fails; when the last `}` is at or after the first `{` the candidate is the reply from the one to the other inclusive, and otherwise it is "" |
| Planner.Extract | ai-seo-writer/app/planner/planner.py:36-43 | a value is obtained only by parsing the candidate, and whenever the candidate parses |
| Planner.PlanFromReply | ai-seo-writer/app/planner/planner.py:36-57 | every reply gives a plan: the parsed value, returned unchanged with no check of its shape, or otherwise the fallback plan |
| Planner.CreatePlan | ai-seo-writer/app/planner/planner.py:33-57 | a provider error propagates unchanged and is the only way to fail; parse errors never escape |
| Planner.FindIs | ai-seo-writer/app/planner/planner.py:37 | `find` returns the position of a character that has no earlier occurrence |
| Planner.RFindIs | ai-seo-writer/app/planner/planner.py:38 | `rfind` returns the position of a character that has no later occurrence |
| Planner.ObjectInProse | ai-seo-writer/app/planner/planner.py:37-41 | prose without `{` before a JSON object and without `}` after it is ignored, and the object's parse is returned |
| Planner.NoBraceFallsBack | ai-seo-writer/app/planner/planner.py:37-57 | a reply without `{` gives the fallback plan |
| Planner.CrossedBracesFallBack | ai-seo-writer/app/planner/planner.py:38-57 | with a `{` but no `}`, or the last `}` before the first `{`, the candidate is "" and, since "" is not JSON, the fallback plan is returned |
| Planner.CandidateBraced | ai-seo-writer/app/planner/planner.py:37-40 | a non-empty candidate starts with `{` and ends with `}`, with no `{` before it and no `}` after it in the reply |
| Planner.SnippetBlock | ai-seo-writer/app/planner/planner.py:9 | a missing or empty snippets entry gives ""; otherwise the block opens with the first snippet |
| Planner.SnippetBlockLayout | ai-seo-writer/app/planner/planner.py:9 | a missing snippets entry gives ""; otherwise each snippet stands at its offset in the block, a blank line separates consecutive snippets, and the last one ends the block |
| Research.EntryOf | ai-seo-writer/app/research/engine.py:20-24 | each of title, href and body is the record's value for that key when present and "" otherwise |
| Research.Entries | ai-seo-writer/app/research/engine.py:19-24 | one entry per delivered record, in order, each built from that record |
| Research.Shape | ai-seo-writer/app/research/engine.py:30-35 | sources, snippets and titles have the length of raw_results and hold its hrefs, bodies and titles index by index |
| Research.Search | ai-seo-writer/app/research/engine.py:7-35 | search never fails; the result lists the delivered records in order, with missing title, href or body as "", is empty for a raised or falsy provider answer, and equals `SearchResult` of the reply |
| Research.SearchResult | ai-seo-writer/app/research/engine.py:7-35 | the result has one entry per delivered record, built from it, lists consistent with the entries, and is empty for a raised or falsy provider answer |
| Research.ShapeDetermined | ai-seo-writer/app/research/engine.py:30-35 | the three lists are determined by raw_results: any consistent result is the layout of its raw list |
| Research.EntryRoundTrip | ai-seo-writer/app/research/engine.py:20-24 | a record holding an entry's three fields gives that entry back |
| Research.EntryIgnoresOtherFields | ai-seo-writer/app/research/engine.py:20-24 | records that agree on title, href and body give the same entry |
| Research.EntriesPrefix | ai-seo-writer/app/research/engine.py:19-24 | the entries of a prefix of the records are a prefix of the entries |
| Research.ShapePrefix | ai-seo-writer/app/research/engine.py:30-33 | laying out a prefix of the entries gives prefixes of the three lists |
| Research.FailureKeepsPrefix | ai-seo-writer/app/research/engine.py:12-35 | a provider failing after k records gives exactly the first k entries and list items of a complete run |
| Research.EarlyFailureIsEmpty | ai-seo-writer/app/research/engine.py:12-35 | a raised or falsy answer, or a failure before the first record, gives empty lists |
| Text.Trim | ai-seo-writer/app/input/handler.py:13 | `strip` leaves no class character at either end and never lengthens the string |
| Text.TrimSlice | ai-seo-writer/app/input/handler.py:13 | what `strip` keeps is the slice between a leading and a trailing run of class characters |
| Text.TrimIdentity | ai-seo-writer/app/input/handler.py:13 | a string without class characters at its ends is unchanged by `strip` |
| Text.Split | ai-seo-writer/app/input/handler.py:13 | `split()` yields non-empty words without class characters |
| Text.SplitTrim | ai-seo-writer/app/input/handler.py:13 | `s.strip().split()` equals `s.split()` |
| Text.SplitCollapse | ai-seo-writer/app/exporter/file_exporter.py:36 | replacing each run of separators by one separator character leaves the words of the split unchanged |
| Text.SplitJoin | ai-seo-writer/app/input/handler.py:13 | splitting words joined by one separator gives the words back |
| Text.JoinSplit | ai-seo-writer/app/input/handler.py:13 | a string of words with single separators is the join of its split |
| Text.Join | ai-seo-writer/app/input/handler.py:13 | joining no pieces gives "", one piece gives that piece, and several give at least the first piece, one separator and the last piece |
| Text.JoinShape | ai-seo-writer/app/input/handler.py:13 | joining words with one separator gives single separators and clean ends, and "" only for no words |
| Text.Filter | ai-seo-writer/app/exporter/file_exporter.py:34 | deleting the characters outside a class leaves only class characters, and never lengthens the string |
| Text.FilterEmpty | ai-seo-writer/app/exporter/file_exporter.py:34 | deleting the characters outside a class leaves "" exactly when no character is in the class |
| Text.FilterFilter | ai-seo-writer/app/exporter/file_exporter.py:34 | deleting outside a wider class first does not change the characters of a narrower class |
| Text.CollapseRuns | ai-seo-writer/app/exporter/file_exporter.py:30 | collapsing runs never lengthens the string and is empty only for ""; it starts with the replacement when the string starts with a run, and with the string's own first character otherwise |
| Text.CollapseLeadingRun | ai-seo-writer/app/exporter/file_exporter.py:30 | a whole leading run of class characters, of any length, becomes one replacement character, and the rest is collapsed on its own |
| Text.CollapseRun | ai-seo-writer/app/exporter/file_exporter.py:36 | a non-empty run of class characters alone collapses to the single replacement |
| Text.CollapseAppend | ai-seo-writer/app/exporter/file_exporter.py:30 | collapsing distributes over a cut that does not split a run |
| Text.CollapseWeave | ai-seo-writer/app/exporter/file_exporter.py:30 | between words free of class characters, each separator is collapsed on its own |
| Text.CollapseNoAdjacent | ai-seo-writer/app/exporter/file_exporter.py:36 | after collapsing, no two class characters stand side by side |
| Text.CollapseAll | ai-seo-writer/app/exporter/file_exporter.py:36 | collapsing into a character of a class keeps a string within that class when every character outside the runs is already in it |
| Text.CollapseKeepsFilter | ai-seo-writer/app/exporter/file_exporter.py:30 | collapsing runs of other characters into another character keeps the characters of a class untouched, in order |
| Text.CollapseJoin | ai-seo-writer/app/exporter/file_exporter.py:30 | collapsing the separators of joined words replaces each by the new character |
| Text.CollapseIdentity | ai-seo-writer/app/exporter/file_exporter.py:36 | a string already in collapsed form is unchanged |
| Text.TrimKeeps | ai-seo-writer/app/exporter/file_exporter.py:36 | stripping keeps a character class and single separators, and adds clean ends |
| Text.TrimKeepsFilter | ai-seo-writer/app/exporter/file_exporter.py:36 | stripping characters outside a class keeps the class characters untouched |
| Text.Find | ai-seo-writer/app/planner/planner.py:37 | `find` is -1 exactly when the character is absent, and otherwise the first position holding it |
| Text.Slice | ai-seo-writer/app/planner/planner.py:40 | Python's `s[i:j]` is the ordinary slice within bounds, runs to the end when `j` passes it, and is "" when the bounds cross or `i` is past the end |
| Text.RFind | ai-seo-writer/app/planner/planner.py:38 | `rfind` is -1 exactly when the character is absent, and otherwise the last position holding it |
| Text.JoinPiece | ai-seo-writer/app/planner/planner.py:9 | each piece of `sep.join(xs)` stands at its offset |
| Text.JoinSeparator | ai-seo-writer/app/planner/planner.py:9 | the separator stands between consecutive pieces |
| Text.OffsetNext | ai-seo-writer/app/planner/planner.py:9 | consecutive pieces start one piece and one separator apart |
| Text.JoinLength | ai-seo-writer/app/planner/planner.py:9 | the last piece ends the joined string |

## Left out

- Unicode: `\s`, `\w` and `str.lower` are an oracle (`Unicode.CharClasses`), limited only by `Unicode.Valid`. Python's Unicode tables are not reproduced. The ASCII instance exists only to evaluate the examples.
- `json.loads` is an oracle `string -> Option<Json>`. The one fact a lemma needs about it is that "" is not a JSON document, and that lemma states it as a requirement.
- The prompt text of planner.py:11-31 and the AI provider are outside the model. The provider's reply, or its error, is an input of `Planner.CreatePlan`. No model of `writer.py`, `provider.py` or `main.py` is given: they are prompt assembly, network calls and console handling.
- The `print` logging in the `except` branches of planner.py and engine.py is left out, because it is console output.
- The search provider (`DDGS`) is an input `SearchReply`. The query and the `max_results` cap are passed to the provider, so they are not modelled.
- Records are maps from field names to strings. A record that is not a dict, or that holds a non-string field, is not modelled.
- `datetime.now()` is an input date.
- `FileExport.DateStamp` pads years below 1000 to four digits. The platform's `strftime("%Y")` may not.
- `FileExporter.__init__` (`os.makedirs`) is left out: the output directory is taken to exist.
- Encoding and I/O errors of the file write are left out. The directory is a map from paths to contents, and the write is an update of that map.
- `os.path.join` is modelled with POSIX rules only. The Windows rules are left out.
- `settings.py` beyond `MAX_KEYWORD_WORDS` is left out: dotenv loading and the API-key warning are environment handling.
- Python strings holding lone surrogates (for example from `surrogateescape` decoding) are not modelled: a Dafny `char` is a Unicode scalar value. For every other string, `find`, `rfind` and slicing count the same code points as the model's `char` positions.
