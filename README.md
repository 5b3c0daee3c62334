# Bird photo renaming tool: a verified model

This project models the logic of a desktop tool that groups bird photos by
the Korean species name read from their file names. The tool looks each
species up in a reference table and an online encyclopedia. It then copies
the photos under new names of the form `timestamp_Korean[_English]` plus the
original extension, and it prepares the data of an observation report.

The model is written in Dafny and covers four source files.

- `name_check.py`:
  - the file-name sanitiser (module `Sanitize`);
  - the Hangul tokenizer (`Tokenizer`);
  - the exact-match table lookup (`Records`);
  - the encyclopedia cascade over a stub client whose regular expressions are opaque matchers (`Wiki`);
  - the merge-if-empty resolver (`Resolve`);
  - the autocomplete ranker (`Fuzzy`).
- `thumbnailing.py` (`Thumbnailing`):
  - the EXIF date-tag precedence;
  - the centred square crop box;
  - `os.path.splitext`;
  - the new base name;
  - the collision loop over a set of existing names;
  - the copy loop with its records;
  - the thumbnail pass.
- `main_visualizer.py` (`Visualizer`):
  - the report's own sanitiser;
  - the observation records with defaults;
  - the observation period;
  - the species grouping, counts and stable sort by (order, family);
  - the report format dispatch.
- `bird_name_editor_app.py`:
  - the editor window's three maps (`species_photo_map`, `bird_name_map`, `bird_info_map`) as fields of a class (`EditorApp.BirdNameEditor`);
  - what loading a folder, renaming a group, the live preview and the species list compute, on values (`Editor`).

Shared pieces:

- `Common`: optional values, Python whitespace and `strip`, ASCII `lower`, decimal rendering and timestamps.
- `OrderedDict`: an insertion-ordered dictionary, as Python's `dict` iterates.
- `Sorting`: Python's string and tuple order, and a stable sort.

Loops of the source are methods with loop invariants, proved equal to
specification functions. The lemmas prove the properties those functions
promise:

- every missing field is filled with "N/A";
- a value from the table is never overwritten;
- the groups partition the photos;
- the copied names are pairwise distinct and new to the output folder;
- a rename keeps the name map and the groups in agreement;
- the report groups are sorted stably and as a permutation.

The outside world is represented by parameters:

- the reference table is a sequence of rows (maps from column name to text);
- the encyclopedia is a stub client with a map of Korean pages (summary and English link) and a map of English summaries;
- the folder listing, the files present, the copies that fail, the thumbnails that fail and the EXIF readings are inputs.

## Model

| member | source | states |
|---|---|---|
| Common.Strip | name_check.py:11 | `str.strip()`: the result neither starts nor ends with whitespace, and a string without whitespace is returned unchanged |
| Common.TrimLeftDropsSpaces | name_check.py:11 | what `lstrip` removes from the front is whitespace only |
| Common.TrimRightDropsSpaces | name_check.py:11 | what `rstrip` removes from the end is whitespace only |
| Common.TrimLeft | name_check.py:11 | `lstrip` keeps a suffix of the string, which starts with a non-space when it is not empty |
| Common.TrimRight | name_check.py:11 | `rstrip` keeps a prefix of the string, which ends with a non-space when it is not empty |
| Common.Lower | name_check.py:290-293 | `str.lower()` keeps the length and lowers each character in place |
| Common.NatToString | thumbnailing.py:103 | `str(n)` is a non-empty string of decimal digits |
| Common.ParseNatToString | thumbnailing.py:103 | the decimal rendering `str(counter)` of the collision counter reads back as the same number |
| Common.NatToStringInjective | thumbnailing.py:103 | two different counters never render as the same decimal string |
| Common.PadDigits | thumbnailing.py:85 | a zero-padded `strftime` field is all digits and exactly `width` long when the value fits |
| Common.NatToStringLength | thumbnailing.py:85 | a value below `10^width` needs at most `width` digits |
| Sanitize.DeleteChar | name_check.py:12 | `replace('*', '')` leaves no occurrence of the deleted character |
| Sanitize.DeleteCharAppend | name_check.py:12 | deleting a character distributes over concatenation |
| Sanitize.DeleteCharAbsent | name_check.py:12 | deleting a character that does not occur changes nothing |
| Sanitize.DeleteForbidden | name_check.py:13 | the character-class substitution leaves none of `\ / : " * ? < > \|`, and leaves a clean string unchanged |
| Sanitize.DeleteForbiddenCons | name_check.py:13 | the first character is dropped exactly when it is one of the nine forbidden ones |
| Sanitize.DeleteForbiddenAppend | name_check.py:13 | the substitution works piecewise: deleting from `a + b` is deleting from `a` and from `b`; with the one-character case, every other character is kept in its order |
| Sanitize.DeleteForbiddenMembers | name_check.py:13 | a character is in the result exactly when it is in the input and is not forbidden |
| Sanitize.ReplaceSpaceRuns | name_check.py:14 | `re.sub(r"\s+", rep, s)` leaves no whitespace when `rep` has none, adds no forbidden character, and is the identity on a string without whitespace |
| Sanitize.RunsFacts | name_check.py:14 | the same three facts for the run-tracking scan behind the substitution |
| Sanitize.SanitizeFilename | name_check.py:7-14 | a non-string gives `""`; every result is free of whitespace and of the forbidden characters |
| Sanitize.SanitizeFilenameIdempotent | name_check.py:7-14 | sanitising an already sanitised name returns it unchanged |
| Sanitize.SpaceRunReplacedOnce | name_check.py:14 | a maximal whitespace run between two non-space neighbours is replaced by exactly one `rep` |
| Sanitize.RunReplacedOnce | name_check.py:14 | the same, for the scan |
| Sanitize.RunReplacedAfter | name_check.py:14 | the same, for a run with text before it |
| Sanitize.SpaceRunAtStart | name_check.py:14 | a leading run becomes one `rep` |
| Sanitize.RunsInsideRun | name_check.py:14 | inside a run, further whitespace produces nothing more |
| Sanitize.RunsAppend | name_check.py:14 | the scan splits at a non-space character |
| Sanitize.RunsAppendNoSpace | name_check.py:14 | a tail without whitespace is copied unchanged, whatever precedes it |
| Sanitize.RunsChars | name_check.py:14 | every output character comes from the input or from the replacement |
| Tokenizer.LastIndexOf | name_check.py:18 | the position found holds the character and no later position does; no position is found only when the character is absent |
| Tokenizer.SeparatorsToSpaces | name_check.py:21 | replacing `_` and `-` by spaces keeps the length |
| Tokenizer.HangulRuns | name_check.py:23 | `re.findall(r'[가-힣]+', …)` yields only non-empty runs of Hangul syllables; Tokenizer.HangulRunsOfWeave and Tokenizer.WeaveOfGaps with Tokenizer.GapsSeparate show they are exactly the maximal runs |
| Tokenizer.HangulRunsSkip | name_check.py:23 | a prefix without Hangul contributes no run |
| Tokenizer.HangulRunsWord | name_check.py:23 | a Hangul word followed by the end or by a non-Hangul character is found as one whole run |
| Tokenizer.HangulRunsOfWeave | name_check.py:23 | Hangul words laid out with Hangul-free stretches around them, non-empty between two words, are found as exactly those words, in order |
| Tokenizer.WeaveOfGaps | name_check.py:23 | conversely, every string is its runs laid out with the stretches between them |
| Tokenizer.GapsSeparate | name_check.py:23 | those stretches hold no Hangul and are non-empty between two runs, so each run is maximal and no Hangul is missed |
| Tokenizer.HangulPrefixLength | name_check.py:23 | a run is maximal: it is all Hangul and the character after it is not |
| Tokenizer.ExtractKoreanBirdNames | name_check.py:16-24 | the tokenizer returns at most one candidate |
| Tokenizer.ExtractKoreanBirdNamesShape | name_check.py:16-24 | there is a candidate exactly when Hangul survives the extension and timestamp removal; it is that Hangul in order, with single spaces between the runs and none at either end |
| Tokenizer.CleanBaseNameHangul | name_check.py:21-22 | turning separators into spaces, collapsing whitespace and stripping neither adds nor loses a Hangul syllable |
| Tokenizer.HangulRunsConcat | name_check.py:23 | the runs found, concatenated, are all the Hangul of the string |
| Tokenizer.JoinRunsShape | name_check.py:24 | `" ".join(runs)` is Hangul words separated by single spaces, whose letters are the runs' letters |
| Tokenizer.JoinRunsSpaced | name_check.py:24 | the joined name starts and ends with Hangul and never has two spaces in a row |
| Tokenizer.JoinRunsLetters | name_check.py:24 | removing the spaces from the joined name gives the runs concatenated |
| Tokenizer.HangulOnlyAppend | name_check.py:23 | the Hangul of a concatenation is the concatenation of the Hangul |
| Tokenizer.HangulOnlySeparators | name_check.py:21 | separator replacement keeps the Hangul |
| Tokenizer.HangulOnlyRuns | name_check.py:22 | whitespace collapsing keeps the Hangul |
| Tokenizer.HangulOnlyTrimLeft | name_check.py:22 | `strip` keeps the Hangul (front) |
| Tokenizer.HangulOnlyTrimRight | name_check.py:22 | `strip` keeps the Hangul (end) |
| Tokenizer.HangulOnlyOfHangul | name_check.py:23 | keeping the Hangul of an all-Hangul string keeps all of it |
| Tokenizer.HangulHasNoBlank | name_check.py:24 | a Hangul word holds no space, so the joining spaces are the only ones |
| Tokenizer.HangulOnlyOfSpaces | name_check.py:22 | whitespace holds no Hangul |
| Tokenizer.HangulHasNoDigit | name_check.py:18-21 | a Hangul word holds no digit, whitespace, `.`, `_` or `-`, so no removal step touches it |
| Tokenizer.SeparatorsToSpacesNone | name_check.py:21 | text without `_` or `-` passes the separator replacement unchanged |
| Tokenizer.SeparatorsToSpacesAppend | name_check.py:21 | the separator replacement works piecewise |
| Tokenizer.SeparatorsToSpacesAt | name_check.py:21 | each `_` and `-` becomes a space and every other character stays where it is |
| Tokenizer.SeparatorsBetween | name_check.py:21 | between two words without `_` or `-` only the separator changes |
| Tokenizer.RunsBetween | name_check.py:22 | collapsing whitespace between two words without whitespace only changes what lies between them |
| Tokenizer.StripUnpadded | name_check.py:22 | `strip()` leaves a string that neither starts nor ends with whitespace unchanged |
| Tokenizer.CleanedSeparator | name_check.py:21-22 | a non-empty separator without Hangul stays non-empty and Hangul-free through the separator replacement and the whitespace collapsing |
| Tokenizer.TidySeparatedWords | name_check.py:21-22 | tidying two Hangul words around a separator changes only the separator |
| Tokenizer.CleanDigitFreeStem | name_check.py:18-22 | a stem without digits loses only its extension before tidying: no timestamp is found in it |
| Tokenizer.CleanSeparatedWords | name_check.py:18-22 | the base name of two Hangul words around a digit-free separator is the two words around the cleaned separator |
| Tokenizer.RunsOfSeparatedWords | name_check.py:23 | two Hangul words around a non-empty Hangul-free stretch are two runs |
| Tokenizer.SeparatedWordsJoined | name_check.py:16-24 | two Hangul words separated by text without Hangul, digits or `.` give the one candidate `h1 + " " + h2` |
| Tokenizer.StripExtensionOf | name_check.py:18 | a last `.` followed by a dot-free extension is removed with it |
| Tokenizer.ExtensionIsIgnored | name_check.py:18 | the candidate depends only on the stem, never on the extension |
| Tokenizer.CandidateOfHangulStem | name_check.py:16-24 | a pure-Hangul stem with an extension yields exactly the stem |
| Tokenizer.HangulSurvivesCleaning | name_check.py:20-23 | a Hangul word passes the dashed-timestamp removal and the tidying unchanged, as one run |
| Tokenizer.CompactStampRemoved | name_check.py:19 | a `\d{8}_\d{6}` timestamp between Hangul words is deleted |
| Tokenizer.CompactStampMergesHangul | name_check.py:16-24 | `<word><YYYYMMDD_HHMMSS><word>.<ext>` yields the two words glued into one candidate |
| Tokenizer.DashedStampNotCompact | name_check.py:19 | no compact timestamp is found inside a dashed one between Hangul words |
| Tokenizer.DashedStampRemoved | name_check.py:20 | a `YYYY-MM-DD HH:MM:SS` timestamp between Hangul words is deleted |
| Tokenizer.DashedStampMergesHangul | name_check.py:16-24 | `<word><YYYY-MM-DD HH:MM:SS><word>.<ext>` yields the two words glued into one candidate |
| Tokenizer.RemoveCompactStampsSkip | name_check.py:19 | text without digits passes the compact-timestamp removal unchanged |
| Tokenizer.RemoveDashedStampsSkip | name_check.py:20 | text without digits passes the dashed-timestamp removal unchanged |
| Tokenizer.RemoveCompactStampsNone | name_check.py:19 | when no position starts a compact timestamp, nothing is removed |
| Tokenizer.NoStampAtNonDigit | name_check.py:19-20 | neither timestamp shape can start at a non-digit |
| Tokenizer.TidyHangul | name_check.py:21-22 | tidying a Hangul word is the identity |
| Tokenizer.RunsOfHangul | name_check.py:23 | a non-empty Hangul word is a single run |
| Records.Labels | name_check.py:245-259 | each field is reported under its Korean label (영명, 학명, 목, 과), in order |
| Records.SetField | name_check.py:245-258 | writing one field changes that field and no other |
| Records.FirstRowNamed | name_check.py:31-33 | the row found is the first one whose 국명 equals the name; when none is found, no row has it |
| Records.SearchCsvByKoreanName | name_check.py:26-43 | a hit carries the stripped query as its Korean name |
| Records.SearchCsvFindsFirstRow | name_check.py:26-43 | the lookup hits exactly when there is a table with a 국명 column, the stripped name is not blank and some row carries it; the hit's taxonomy is the first such row's 영명, 학명, 목 and 과 |
| Wiki.FirstIndexWhere | name_check.py:69-73 | the pattern chosen is the first whose match is acceptable; when none is chosen, no pattern's match is |
| Wiki.SearchPatterns | name_check.py:69-73 | the loop over a pattern cascade returns the stripped group of the first pattern that matches, and finds something exactly when some pattern matches |
| Wiki.SameIgnoringCaseIsLowerEquality | name_check.py:163 | the character-wise case-blind comparison is exactly `a.lower() == b.lower()` |
| Wiki.SearchEnglishName | name_check.py:151-169 | the fallback loop returns the first stripped match that passes the guard, and any name it returns differs from the scientific name ignoring case, is 6 to 49 characters long and has none of `()[]{}/` |
| Wiki.FirstIndexWhereIs | name_check.py:69-73 | a loop that stops at the first acceptable pattern agrees with the cascade |
| Wiki.FirstIndexWhereNone | name_check.py:69-73 | a loop that finds no acceptable pattern agrees with the cascade |
| Wiki.FirstIndexOf | name_check.py:121 | the first closing parenthesis found is the first one in the string |
| Wiki.ParenthesisedPrefix | name_check.py:121 | a `\s*\([^)]*\)` match at the front is non-empty; an unclosed `(` does not match; without `(` nothing matches |
| Wiki.RemoveParentheticalsChars | name_check.py:121 | removing the parenthesised parts only deletes characters |
| Wiki.RemoveParentheticalsCloses | name_check.py:121 | no parenthesised part survives the removal |
| Wiki.NoClosedParenthesisCons | name_check.py:121 | an unclosed `(` in front of a clean title keeps it clean |
| Wiki.RemoveParentheticalsNone | name_check.py:121 | a title without `(` is left unchanged |
| Wiki.SuffixChars | name_check.py:121 | the characters of a suffix are characters of the string |
| Wiki.ReadEnglishPage | name_check.py:100-148 | the English page step gives the cleaned title as common name when it is non-empty and under 50 characters, and consults the English summary for the scientific name only when none was found yet |
| Wiki.GetInfoFromWikipedia | name_check.py:45-187 | the lookup returns the scientific name, order and family found in the Korean summary, the English page's contribution and, when that gave no common name, the first acceptable English name of the Korean summary |
| Wiki.WikiLookupNothing | name_check.py:47-57 | without a client, a name or an existing Korean page the lookup returns four empty fields |
| Wiki.WikiKoreanScientificWins | name_check.py:69-73 | a scientific name found in the Korean summary is kept and the English summary is not consulted for it |
| Wiki.WikiEnglishScientificFallback | name_check.py:129-141 | when the Korean summary yields no scientific name, it comes from the English summary, if a linked English page exists, and is otherwise empty |
| Wiki.WikiCommonNameSource | name_check.py:116-169 | when the Korean page links an existing English page whose cleaned title is non-empty and shorter than 50 characters, the common name is that title; otherwise it is the first Korean-summary match that passes the guard (or empty); a common name found is one of the two |
| Resolve.SupplementFromWiki | name_check.py:244-259 | the encyclopedia values fill exactly the empty fields, which are listed in the order 영명, 학명, 목, 과 |
| Resolve.FillNotAvailable | name_check.py:280-282 | the loop replaces every empty field by "N/A" and leaves the others alone |
| Resolve.MissingFields | name_check.py:226-230 | a field is listed as missing exactly when it is empty; nothing is missing exactly when the record is complete |
| Resolve.ApplyWikiInfo | name_check.py:241-266 | the encyclopedia fills the gaps; the source tag changes only when something was filled, to "CSV+Wiki(…)" after a table hit and "Wiki(…)" otherwise |
| Resolve.ResolveBirdInfo | name_check.py:190-284 | the resolver returns the record of the resolution specification: "미분류" at once, otherwise the table hit completed by the encyclopedia and "N/A" |
| Resolve.MergeSources | name_check.py:205-284 | the steps after the table lookup give exactly the merged record, and the encyclopedia is consulted only when the hit is missing or incomplete |
| Resolve.FillGapsField | name_check.py:244-258 | a field filled by the table keeps its value; an empty one takes the encyclopedia's |
| Resolve.FilledFieldsMeaning | name_check.py:244-262 | a field is named in the source tag exactly when it was empty and the encyclopedia had it |
| Resolve.InFourParts | name_check.py:244-262 | membership in the four-part field list is membership in one of its parts |
| Resolve.WithDefaultsField | name_check.py:280-282 | "N/A" replaces exactly the empty fields, so no field stays empty |
| Resolve.ResolveFillsEveryField | name_check.py:190-284 | apart from "미분류", every field of a resolved record is non-empty |
| Resolve.ResolveUnclassified | name_check.py:202-203 | "미분류" resolves at once to empty fields with source "사용자 입력" |
| Resolve.MergeKeepsTableValues | name_check.py:244-258 | a value from the table is never overwritten by the encyclopedia |
| Resolve.MergeCompleteRow | name_check.py:205-232 | a complete table row is returned unchanged with source "CSV" |
| Resolve.MergeNothingFound | name_check.py:193-282 | without a table hit or an encyclopedia answer, every field is "N/A" and the source is "사용자 입력" |
| Resolve.MergeSourceTag | name_check.py:209-266 | the source is "CSV" or "사용자 입력" when nothing was filled in, otherwise "CSV+Wiki(" or "Wiki(" followed by the labels of the filled fields |
| Resolve.MergeOrderFamilyExample | name_check.py:241-266 | a row missing only 목 and 과, both found in the encyclopedia, is tagged "CSV+Wiki(목, 과)" with those two values |
| Resolve.OrderFamilyFilled | name_check.py:253-259 | in that case exactly 목 and 과 are filled |
| Resolve.OrderFamilyTag | name_check.py:264 | the tag text for those two fields |
| Fuzzy.Select | name_check.py:291-293 | a list comprehension keeps at most the names it filters |
| Fuzzy.SelectMembers | name_check.py:291-293 | a name is kept exactly when it is in the list and passes the comprehension's condition |
| Fuzzy.SelectCons | name_check.py:291-293 | the comprehension keeps the first name exactly when its condition holds for it |
| Fuzzy.SelectAppend | name_check.py:291-293 | the comprehension keeps table order: filtering two halves of the list and putting the results together is filtering the whole |
| Fuzzy.SlicePrefix | name_check.py:294 | `s[:limit]` is a prefix of `s` of length `min(limit, len(s))`, and for a negative limit drops that many names from the end |
| Fuzzy.FuzzySearch | name_check.py:286-294 | an empty query gives no suggestion; never more than a non-negative limit; the suggestions are a prefix of the ranked list |
| Fuzzy.GroupMembers | name_check.py:291-293 | the exact group holds the names equal to the query ignoring case; the prefix group those starting with it but not equal; the contains group those containing it elsewhere |
| Fuzzy.RankedMembers | name_check.py:291-294 | a name is ranked exactly when it is a table name containing the lowered query |
| Fuzzy.RankedInRankOrder | name_check.py:294 | exact matches come before prefix matches, which come before the other matches |
| Fuzzy.FuzzySearchMatches | name_check.py:286-294 | every suggestion is a table name containing the lowered query |
| Fuzzy.CountGroups | name_check.py:291-293 | the three groups together hold at most one entry per table row |
| Fuzzy.FuzzySearchComplete | name_check.py:286-294 | with a limit at least the table size, every table name containing the query is suggested |
| OrderedDict.Empty | bird_name_editor_app.py:148-150 | a new dict is empty and well formed |
| OrderedDict.Put | main_visualizer.py:160-161 | `d[k] = v` maps `k` to `v`, keeps the other entries, and appends `k` to the key order only when it was new |
| OrderedDict.RemoveKey | bird_name_editor_app.py:507 | taking a key out of the key order removes exactly that key and keeps the order free of repeats |
| OrderedDict.Remove | bird_name_editor_app.py:507 | `del d[k]` removes exactly the entry for `k` and its place in the key order |
| OrderedDict.Get | bird_name_editor_app.py:499 | `d.get(k, default)` is the stored value when `k` is present and the default otherwise |
| OrderedDict.Values | main_visualizer.py:165 | the values come in key-insertion order |
| OrderedDict.Items | main_visualizer.py:165 | `d.items()` pairs each key with its value, in insertion order |
| OrderedDict.DistinctCardinality | main_visualizer.py:320 | a key list without repeats has as many entries as its set of keys |
| OrderedDict.SumLengthsOutside | main_visualizer.py:156-162 | changing the list of a key outside the key list does not change the total |
| OrderedDict.SumLengthsUpdate | main_visualizer.py:156-162 | replacing one list changes the total by the difference in length |
| OrderedDict.SumLengthsAppend | main_visualizer.py:156-162 | a new key adds its list's length to the total |
| OrderedDict.SumLengthsRemove | bird_name_editor_app.py:507 | removing a key subtracts its list's length |
| OrderedDict.PutTotal | main_visualizer.py:160-162 | `d[k] = v` changes the total number of listed elements by `len(v)` minus the old length |
| OrderedDict.RemoveTotal | bird_name_editor_app.py:507 | `del d[k]` lowers the total number of listed elements by the length of the list removed |
| OrderedDict.Append | main_visualizer.py:160-162 | appending to the list of a key keeps the dict well formed |
| OrderedDict.AppendTo | bird_name_editor_app.py:314-315 | the two statements `if k not in d: d[k] = []` and `d[k].append(x)` amount to appending `x` to the list of `k`, created empty when missing |
| OrderedDict.GroupBy | main_visualizer.py:156-162 | the grouping loop yields a well-formed dict |
| OrderedDict.Having | main_visualizer.py:156-162 | the elements of a given key are exactly the listed elements with that key, no more than the list holds |
| OrderedDict.KeySetSnoc | main_visualizer.py:156-162 | one more element adds its key to the set of keys |
| OrderedDict.HavingAbsent | main_visualizer.py:156-162 | a key no element has selects nothing |
| OrderedDict.GroupByKeys | main_visualizer.py:156-162 | the grouping has a list for each key some element has, and for no other |
| OrderedDict.GroupByPartition | main_visualizer.py:156-162 | the list of each key holds exactly the elements with that key, in their order, and is never empty |
| OrderedDict.GroupByStep | main_visualizer.py:156-162 | one more element extends only the list of its own key |
| OrderedDict.GroupByTotal | main_visualizer.py:156-162 | every element lands in exactly one list: the lengths add up to the number of elements |
| OrderedDict.ListCountBound | main_visualizer.py:156-162 | with every list non-empty, there are no more lists than elements |
| OrderedDict.GroupByCount | main_visualizer.py:316-320 | the number of groups is the number of distinct keys, at most the number of elements |
| Sorting.StrLtIrreflexive | main_visualizer.py:165-167 | no string is less than itself under Python's string order |
| Sorting.StrLtTransitive | main_visualizer.py:165-167 | Python's string order is transitive |
| Sorting.StrLtTotal | main_visualizer.py:165-167 | any two different strings are ordered one way or the other |
| Sorting.KeyLtIrreflexive | main_visualizer.py:165-167 | no pair of strings is less than itself under tuple order |
| Sorting.KeyLeTransitive | main_visualizer.py:165-167 | "not less than" on sort keys is transitive |
| Sorting.InsertPermutes | main_visualizer.py:165-167 | inserting an element keeps the multiset of elements |
| Sorting.SortByPermutes | main_visualizer.py:165-167 | `sorted` returns a permutation of its input |
| Sorting.WithKeyAppend | main_visualizer.py:165-167 | filtering by key distributes over concatenation |
| Sorting.InsertSorted | main_visualizer.py:165-167 | inserting into a sorted list keeps it sorted |
| Sorting.WithKeySingle | main_visualizer.py:165-167 | filtering a one-element list by key |
| Sorting.WithKeySwap | main_visualizer.py:165-167 | two elements with different keys can be swapped without changing any key filter |
| Sorting.InsertStable | main_visualizer.py:165-167 | inserting keeps the relative order of elements with equal keys |
| Sorting.SortBySorted | main_visualizer.py:165-167 | `sorted` returns its input in non-decreasing key order |
| Sorting.SortByStable | main_visualizer.py:165-167 | `sorted` keeps the relative order of elements with equal keys |
| Sorting.SortByCorrect | main_visualizer.py:165-167 | `sorted(…, key=…)` orders by key, is a permutation, and is stable |
| Thumbnailing.PhotoDateTimePrecedence | thumbnailing.py:10-18 | a set `DateTimeOriginal` (36867) decides the shooting time whatever `DateTime` (306) holds; otherwise `DateTime` decides; with neither there is no date |
| Thumbnailing.CropBox | thumbnailing.py:37-43 | the crop is a square with the shorter side, inside the image, centred to within one pixel (floor division puts any odd pixel on the right or bottom) |
| Thumbnailing.Splitext | thumbnailing.py:96 | `os.path.splitext`: stem and extension concatenate to the name, and a non-empty extension starts at a dot and holds no other |
| Thumbnailing.SplitextOf | thumbnailing.py:96 | a stem not made only of dots, followed by a one-dot extension, splits back into the two |
| Thumbnailing.SplitextNoDot | thumbnailing.py:96 | a name without a dot has an empty extension |
| Thumbnailing.SanitizeNotAvailable | thumbnailing.py:72 | sanitising the resolver's "N/A" gives "NA": only the slash is deleted |
| Thumbnailing.SentinelHasNoSpace | thumbnailing.py:72 | neither "N/A" nor "NA" holds whitespace |
| Thumbnailing.SlashDeleted | thumbnailing.py:72 | the character-class substitution turns "N/A" into "NA" |
| Thumbnailing.NotAvailableKeptAsWritten | thumbnailing.py:84-94 | as written, an English name of "N/A" passes the `not in ["N_A", ""]` guard and ends the new base as `_NA` |
| Thumbnailing.NotAvailableDropped | thumbnailing.py:84-94 | with the guard comparing to the sanitised sentinel, "N/A" gives the same base as no English name |
| Thumbnailing.EnglishNameKept | thumbnailing.py:84-94 | an English name whose sanitised form is neither `""` nor `"N_A"` follows the Korean name after an underscore, behind the timestamp when there is one |
| Thumbnailing.EnglishNameOmitted | thumbnailing.py:84-94 | an English name whose sanitised form is `""` or `"N_A"` is left out: the base is the timestamp and the Korean name, or the Korean name alone |
| Thumbnailing.DigitsAreSafe | thumbnailing.py:85 | digits are neither whitespace nor forbidden in a file name |
| Thumbnailing.SafeConcat | thumbnailing.py:87 | joining two safe strings gives a safe string |
| Thumbnailing.DigitsConcat | thumbnailing.py:85 | joining digit strings gives a digit string |
| Thumbnailing.TimestampIsSafe | thumbnailing.py:85 | the `%Y%m%d_%H%M%S` timestamp holds no whitespace and no forbidden character |
| Thumbnailing.NewBaseAsWrittenIsSafe | thumbnailing.py:71-94 | every new base name the copy loop composes is free of whitespace and of the characters `\ / : " * ? < > \|` |
| Thumbnailing.NewBaseIsSafe | thumbnailing.py:71-94 | with the corrected guard too, every new base name is free of whitespace and of the characters `\ / : " * ? < > \|` |
| Thumbnailing.ComposeBaseIsSafe | thumbnailing.py:84-94 | composing safe parts with underscores and a timestamp stays safe |
| Thumbnailing.CollisionNameInjective | thumbnailing.py:100-104 | two different counters never give the same candidate name |
| Thumbnailing.FreeName | thumbnailing.py:99-104 | the loop returns a name the output folder does not hold, that is the `k`-th candidate, where every earlier candidate was taken |
| Thumbnailing.FirstPhotoNamed | thumbnailing.py:77-80 | the inner loop stops at the first photo with the file's name, or finds none |
| Thumbnailing.ShotTimeFromPhoto | thumbnailing.py:75-81 | a shooting time found is that of some photo with the file's name |
| Thumbnailing.ShotTimeOfOnlyPhoto | thumbnailing.py:75-81 | a file listed in exactly one place gets exactly that photo's time |
| Thumbnailing.ShotTimeNone | thumbnailing.py:75-81 | without a photo of that name, no time is found |
| Thumbnailing.FindShotTime | thumbnailing.py:75-81 | the nested `for` with its two `break`s returns the time of the search specification: the first group with that file and a time decides |
| Thumbnailing.Eligible | thumbnailing.py:63-66 | the copied files are at most the entries of the name map |
| Thumbnailing.AllCopiedAsAt | thumbnailing.py:111-118 | the record at any position describes the file at that position |
| Thumbnailing.AllCopiedAsAppend | thumbnailing.py:118 | appending a record that describes the next file keeps the correspondence |
| Thumbnailing.CopiedRecord | thumbnailing.py:63-118 | the `i`-th record is of the `i`-th copied file, with its bird, its found time and a collision variant of `{time}_{korean}[_{english}]`, the English part kept unless it sanitises to `""` or `"N_A"`, with the original extension |
| Thumbnailing.CopiedFirstFree | thumbnailing.py:98-104 | the `i`-th copy took the first free variant of its base name, composed from its time, bird and English name under the `"N_A"` guard: it is not in the folder as it was then, and every lower counter is held by the folder before the run or by an earlier copy |
| Thumbnailing.FirstFreeAppend | thumbnailing.py:98-118 | appending a record named by the first variant free after the earlier copies keeps that property for every record |
| Thumbnailing.NameSetMembers | thumbnailing.py:107-109 | a name is in the output folder's new names exactly when some record carries it |
| Thumbnailing.CopyOne | thumbnailing.py:68-109 | copying one file makes a record that describes it, under the first variant of its base name that the folder does not hold, and adds that name to the folder |
| Thumbnailing.EligibleStep | thumbnailing.py:63-66 | one more entry of the name map adds that file exactly when it is named, present and copyable |
| Thumbnailing.NameSetAppend | thumbnailing.py:109 | one more copy adds its name to the folder |
| Thumbnailing.CopyStep | thumbnailing.py:68-119 | the loop body keeps the progress invariant, including that each record's name was the first free variant at its turn, and appends exactly one record |
| Thumbnailing.CopyAndRenameFiles | thumbnailing.py:55-124 | the copy loop yields, in name-map order, one record per file that is named other than "미분류", present and copyable, each named by the first variant of its base name free at its turn; the folder grows by exactly the new names, each new to the folder and all distinct |
| Thumbnailing.FreshAppend | thumbnailing.py:102-109 | a record under a name new to the folder keeps the names fresh and distinct |
| Thumbnailing.ThumbnailNameIgnoresExtension | thumbnailing.py:135-136 | two copies differing only in extension share the thumbnail name `stem_thumb.jpg` |
| Thumbnailing.Successes | thumbnailing.py:132-140 | no more thumbnails succeed than there are copies |
| Thumbnailing.UpdateThumbnails | thumbnailing.py:126-144 | each copy keeps its record and gets `{stem}_thumb.jpg` when its thumbnail is made, `None` otherwise; the success count is the number of thumbnails made, at most the number of copies |
| Visualizer.ReportSanitizeFilename | main_visualizer.py:15-21 | no name gives ""; every result is free of whitespace and of forbidden characters |
| Visualizer.UnderscoreIsSafe | main_visualizer.py:21 | the replacement `_` is neither whitespace nor forbidden |
| Visualizer.StripNoForbidden | main_visualizer.py:20 | stripping never brings back a forbidden character |
| Visualizer.ReportSanitizeEnds | main_visualizer.py:18-21 | because the strip comes after the deletions, the result is empty exactly when the stripped text is, and it begins and ends with that text's non-space first and last characters, never with an underscore |
| Visualizer.RunsLast | main_visualizer.py:21 | replacing whitespace runs keeps a non-space last character, and a non-space first one |
| Visualizer.ExampleDeleted | main_visualizer.py:18-19 | deleting `*` and the forbidden characters from "a :" leaves "a " |
| Visualizer.StripFixed | main_visualizer.py:20 | a text without whitespace at either end is unchanged by `strip` |
| Visualizer.SanitizersDiffer | main_visualizer.py:15-21 | on "a :" the renaming sanitiser gives "a_" and the report's gives "a": the two orders of strip and deletion differ |
| Visualizer.ObservationOfUnknownBird | main_visualizer.py:108-114 | a bird without information is reported under its own name, with "N/A" for the English name and every taxon and the source "사용자 편집" |
| Visualizer.ObservationOfKnownBird | main_visualizer.py:116-130 | a known bird's observation carries its Korean name, taxa and source, with the copy's time, new name and thumbnail |
| Visualizer.PrepareObservationData | main_visualizer.py:100-134 | the loop gives one observation per copy, in the copies' order, each built from that copy and its bird's information |
| Visualizer.Observations | main_visualizer.py:100-134 | the observations as a value: one per copy, in order |
| Visualizer.DateTimeLeTotal | main_visualizer.py:75-76 | any two shooting times compare |
| Visualizer.DateTimeLeTransitive | main_visualizer.py:75-76 | the order on shooting times is transitive |
| Visualizer.DateTimeLeAntisymmetric | main_visualizer.py:75-76 | two times each no later than the other are equal |
| Visualizer.SameDayBetween | main_visualizer.py:79-87 | a time between two times of one day lies on that day |
| Visualizer.TimesOf | main_visualizer.py:67 | the filtered times are no more than the observations |
| Visualizer.TimesOfMembers | main_visualizer.py:67 | the filtered times are exactly the times of the observations that have one |
| Visualizer.Earliest | main_visualizer.py:75 | `min` is one of the times and no later than any |
| Visualizer.Latest | main_visualizer.py:76 | `max` is one of the times and no earlier than any |
| Visualizer.ObservationTimeInfo | main_visualizer.py:65-97 | no time at all gives the no-information answer; otherwise start and end are the earliest and latest times, a single-day answer when their dates agree and a range when they differ |
| Visualizer.SameDayExactly | main_visualizer.py:79-87 | the single-day answer comes exactly when every time lies on one date |
| Visualizer.TimeLabelShowsDate | main_visualizer.py:357-366 | a photo's time is printed with its date exactly when two photos of the species were taken on different dates |
| Visualizer.SpeciesGroups | main_visualizer.py:156-162 | the grouping is a well-formed ordered dictionary |
| Visualizer.GroupBySpecies | main_visualizer.py:156-162 | the grouping loop builds exactly the grouping function's dictionary |
| Visualizer.SpeciesGroupsPartition | main_visualizer.py:156-162 | the groups are keyed by the species keys that occur, each holds that species' observations in input order and is non-empty, and together they hold all observations |
| Visualizer.SpeciesCountsAgree | main_visualizer.py:476-481 | the number of groups (HTML report) equals the number of distinct species keys (Word report) and is at most the number of observations |
| Visualizer.ReportSummary | main_visualizer.py:315-330 | the summary counts the observations, and species, families and orders are each at most that; the species count is the number of distinct keys |
| Visualizer.SortedSpeciesCorrect | main_visualizer.py:164-167 | the species groups come out ordered by (order, family) of their first observation, a permutation of the groups, equal keys in first-seen order |
| Visualizer.ReportDispatch | main_visualizer.py:628-645 | both reports only for "both"; without a format only HTML, and only with copies; no copy or an unknown format writes nothing; "both" with copies and the Word library writes both |
| Editor.ImageFiles | bird_name_editor_app.py:285-286 | the loaded files are exactly the listing's entries whose lowered extension is an image extension, never more than the listing |
| Editor.InSnoc | bird_name_editor_app.py:291 | an element of a listing is in its first part or is its last entry |
| Editor.ImageFilesDistinct | bird_name_editor_app.py:286 | filtering a listing without repeats gives files without repeats |
| Editor.InitialName | bird_name_editor_app.py:295-296 | a file is first grouped under its tokenizer's first candidate, or under "미분류" when there is none |
| Editor.LoadedDateTime | bird_name_editor_app.py:307-310 | the loaded date is the EXIF reading's date when it finds one; a missing date and a parse error both leave none |
| Editor.Photos | bird_name_editor_app.py:312 | one photo record per loaded file, in order, holding that file's name and date |
| Editor.LoadedGroups | bird_name_editor_app.py:314-316 | `species_photo_map` after loading is a well-formed ordered dictionary |
| Editor.LoadedNames | bird_name_editor_app.py:317 | `bird_name_map` after loading is a well-formed ordered dictionary |
| Editor.NamesOfSnoc | bird_name_editor_app.py:291-296 | one more file adds its initial name to the set of group names |
| Editor.LoadedGroupKeys | bird_name_editor_app.py:314-315 | the group keys after loading are exactly the initial names of the loaded files |
| Editor.LoadedGroupsPartition | bird_name_editor_app.py:314-316 | the groups partition the loaded files: each file's photo is in the group of its name, a group holds only photos of its own name, no group is empty, and the groups hold one photo per file |
| Editor.LoadedGroupsHome | bird_name_editor_app.py:314-316 | each loaded file's photo is in its name's group |
| Editor.LoadedGroupsOwn | bird_name_editor_app.py:314-316 | each group holds only loaded photos named after it |
| Editor.LoadedNamesMeaning | bird_name_editor_app.py:317 | `bird_name_map` maps exactly the loaded files, each to its initial name |
| Editor.LoadedNamesOrder | bird_name_editor_app.py:317 | with no repeated file the map's keys are the files in listing order |
| Editor.LoadedInfosMeaning | bird_name_editor_app.py:298-301 | `bird_info_map` has exactly the group names as keys, each with its resolved record |
| Editor.ResolveCallsOncePerName | bird_name_editor_app.py:298-301 | loading calls the resolver once per distinct group name, so never more often than there are files |
| Editor.LoadedCoherent | bird_name_editor_app.py:314-317 | after loading, `bird_name_map` and `species_photo_map` agree in both directions |
| Editor.LoadedTagged | bird_name_editor_app.py:314-317 | after loading, every grouped photo's file maps to its group |
| Editor.LoadedGrouped | bird_name_editor_app.py:314-317 | after loading, every mapped file has a photo in the group it maps to |
| Editor.UniqueBirdNamesAreGroups | bird_name_editor_app.py:552 | while the maps agree, the saved species are the non-empty groups other than "미분류" |
| Editor.LoadedUniqueBirdNames | bird_name_editor_app.py:552 | after loading, the saved species are the group keys other than "미분류" |
| Editor.Retag | bird_name_editor_app.py:500-501 | remapping keeps `bird_name_map` well-formed |
| Editor.RetagMeaning | bird_name_editor_app.py:499-501 | every file of the old group is mapped to the new name, every other entry stays, and no other key appears |
| Editor.FilesOfSnoc | bird_name_editor_app.py:500 | one more photo adds its file to the group's files |
| Editor.RenameGroup | bird_name_editor_app.py:503-507 | the groups after a rename stay a well-formed ordered dictionary |
| Editor.RenameGroupMoves | bird_name_editor_app.py:503-507 | an accepted rename of an existing group gives the new group its previous list followed by the old group's photos, removes the old key and leaves every other group as it was |
| Editor.RenameGroupTotal | bird_name_editor_app.py:503-507 | an accepted rename keeps the total number of photos |
| Editor.RenameGroupMissing | bird_name_editor_app.py:499-507 | renaming from a missing group only leaves the new key in place (empty if it did not exist) and moves no photo |
| Editor.RenameKeepsTagged | bird_name_editor_app.py:499-507 | after a rename every grouped photo's file still maps to its group |
| Editor.RenameKeepsGrouped | bird_name_editor_app.py:499-507 | after a rename every mapped file still has a photo in the group it maps to |
| Editor.RenameKeepsCoherent | bird_name_editor_app.py:499-507 | a rename keeps the two maps in agreement, whether or not the old group exists |
| Editor.PreviewEnglishName | bird_name_editor_app.py:460-464 | without a table, with an empty name or when no row's "국명" is the typed name, the English name is ""; otherwise it is the "영명" cell of the first row whose "국명" is the typed name |
| Editor.PreviewPrompt | bird_name_editor_app.py:471-485 | the preview (as written, and with the corrected guard) is "이름을 입력하세요" exactly when the sanitised Korean name is empty |
| Editor.NotThePrompt | bird_name_editor_app.py:485 | a composed name without whitespace, with or without an extension, is never the prompt |
| Editor.PreviewIsFirstCandidate | bird_name_editor_app.py:471-485 | with a name given, the preview is counter 0 of the copy loop's base name for that photo, time and English name, under the same `"N_A"` guard |
| Editor.PreviewDropsNotAvailable | bird_name_editor_app.py:471-485 | with the corrected guard, an English name of "N/A" gives the preview of no English name |
| Editor.PreviewKeepsNotAvailableAsWritten | bird_name_editor_app.py:474-482 | as written, an English name of "N/A" is shown in the preview as `_NA` |
| Editor.PaddedNotAvailable | bird_name_editor_app.py:460-469 | a reference-table English cell " N/A" sanitises to "NA", as "N/A" does |
| Editor.PreviewKeepsPaddedNotAvailableAsWritten | bird_name_editor_app.py:460-482 | as written, that cell is shown in the preview as `_NA` |
| Editor.PreviewDropsPaddedNotAvailable | bird_name_editor_app.py:460-485 | with the corrected guard, that cell gives the preview of no English name |
| Editor.SortedSpeciesCorrect | bird_name_editor_app.py:332 | the species list holds each group key once, in ascending code-point order |
| Editor.LoadedSnoc | bird_name_editor_app.py:291-317 | loading one more file appends its photo to its group, maps it to its name, and resolves its name when it is new |
| Editor.LoadFile | bird_name_editor_app.py:295-317 | one pass of the load loop appends the photo to its group, maps the file to its name and resolves the name only when it is not cached |
| Editor.LoadFiles | bird_name_editor_app.py:291-317 | the load loop, from the cleared maps, builds exactly the loaded groups, names and cache, with one resolver call per new name |
| Editor.RemapFiles | bird_name_editor_app.py:499-501 | the remapping loop gives exactly the retagged name map |
| Editor.MoveGroup | bird_name_editor_app.py:503-507 | the extend-or-assign and `del` give exactly the renamed groups; the `del` succeeds exactly when the old group existed |
| EditorApp.BirdNameEditor.constructor | bird_name_editor_app.py:148-150 | the three maps start empty and in agreement |
| EditorApp.BirdNameEditor.LoadFolder | bird_name_editor_app.py:267-317 | after clearing and loading, the maps are the loaded groups, names and cache, they agree, and the resolver was called once per cached name |
| EditorApp.BirdNameEditor.UpdateGroupName | bird_name_editor_app.py:488-507 | an empty or unchanged new name is refused and changes nothing; otherwise the new name is resolved and cached, the old group's files are remapped, the groups are renamed, a missing old group is reported, and agreement of the maps is kept |
| EditorApp.BirdNameEditor.SpeciesList | bird_name_editor_app.py:332 | the listed species are the group keys, each once, in ascending order |

## Left out

- The tkinter and customtkinter window are not modelled: widgets, event bindings, the autocomplete list box, dialogs and message boxes are presentation only.
- PIL image work is not modelled (opening files, EXIF rotation, RGB conversion, resizing, JPEG and PNG saving, base64 encoding). These are calls into a library; only the crop-box arithmetic and the date-tag choice are modelled.
- File-system effects are not modelled (`os.listdir`, `os.makedirs`, `shutil.copy2`, `os.path.exists`, resource paths). The output folder is a set of names, and "present" and "fails" are sets given as inputs.
- Loading the table with pandas and `fillna` is not modelled; the table is a sequence of rows.
- Network calls of the encyclopedia client are not modelled. The client is a stub made of two maps.
- The regular expressions of the encyclopedia cascade are opaque matchers (`string -> Option<string>`). The tokenizer's and the sanitiser's patterns are written out.
- Background threads and the status and log callbacks are not modelled: they carry no logic.
- The HTML and Word templates, fonts and the `taxonomy_str` text are presentation only and are not modelled.
- Timestamps are an ordered record of six fields. `strptime` is a parameter that may fail. `strftime("%Y%m%d_%H%M%S")` is written out, but the report's Korean date formats are not: the model keeps which of the three period answers and which time label is given.
- Common.Lower: only ASCII letters are lowered; Python's Unicode case mapping is not modelled.
- The dashed-timestamp pattern is modelled as `name_check.py:20` writes it: its first separator is whitespace, `_` or `-`, never a colon, unlike the other two separators.
- The `'zzz'` fallbacks of the report sort key are not modelled. They apply only to a missing `order` or `family`, and every observation record has both.
- Editor.PreviewEnglishName: a table without a "국명" column makes the source raise `KeyError` inside the preview; the model gives "" instead.
- The per-photo loop of `update_filename_previews` only writes labels. The model gives the preview of one photo (Editor.PreviewFilenameAsWritten).
- EditorApp.BirdNameEditor.LoadFolder: the thumbnails made during loading (`bird_name_editor_app.py:303-305`) are not modelled. An error that aborts the loading thread is not modelled either.
- EditorApp.BirdNameEditor.UpdateGroupName: when the old group does not exist, the final `del` raises `KeyError` after the maps have been updated. The model returns the outcome `OldGroupMissing` with that state instead of raising.
- Wiki.GetInfoFromWikipedia: library exceptions are not modelled. In the source, an exception while the English page is read (name_check.py:101-148) is caught there, the fields found so far stay, and the Korean-summary fallback for the English name still runs; an exception anywhere else (name_check.py:183-187) ends the lookup with the fields filled up to that point. The model's lookup always completes.
- Common.IsDigit: `\d` is modelled as the ASCII digits `0`-`9`. Python's `re` matches every Unicode decimal digit, so a timestamp written with other decimal digits (full-width ones, say) is removed by the source but kept by Tokenizer.RemoveCompactStamps and Tokenizer.RemoveDashedStamps.
- Wiki.ReadEnglishPage: `langlinks` is reduced to an optional English title; the page object the library returns is not modelled.
- `save_changes` only sequences the copy, the thumbnail pass, the reports and the summary count, which are modelled one by one. The dialogs and the location prompt around them are not modelled.

## Findings

The copy loop and the preview are modelled as written (Thumbnailing.NewBaseAsWritten, Editor.PreviewFilenameAsWritten). The corrected definitions Thumbnailing.NewBase and Editor.PreviewFilename carry the intended behaviour, and the corrected-member lemmas are proved about them.

| source | as written | input that shows it | evidently intended | confidence | as-written member | corrected member |
|---|---|---|---|---|---|---|
| thumbnailing.py:86-91 | the English part is dropped only when the sanitised common name is `""` or `"N_A"` | a bird the resolver could not name in English has common name "N/A"; `sanitize_filename("N/A")` is "NA", which passes the guard, so the copy is named `…_NA.jpg` | the "N/A" sentinel leaves the English part out | not executed | Thumbnailing.NotAvailableKeptAsWritten | Thumbnailing.NotAvailableDropped |
| bird_name_editor_app.py:474-482 | the preview drops the English part only for `""` or `"N_A"` | a reference-table row whose 영명 cell is " N/A" (with a leading space, so the table reader keeps it as text rather than a missing value); the preview takes the cell as it is (lines 460-464), sanitising gives "NA", and the preview shows `…_NA` | the "N/A" sentinel leaves the English part out | not executed | Editor.PreviewKeepsPaddedNotAvailableAsWritten | Editor.PreviewDropsPaddedNotAvailable |
