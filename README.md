# files_searcher_bot — a verified model of the search and report core

files_searcher_bot is a Telegram bot that searches indexed lecture files
(PDFs and images) for a phrase. It answers with one picture per matching page,
with the matched words outlined and a keyboard for turning pages. This project
models the parts of the bot that decide *what* is found and *what* is shown:

- **Word normalisation** (`TextClean`). This is `cleanText`: lower-case, ё → е,
  everything outside `[a-zа-я0-9 ]` becomes a space, runs of spaces collapse,
  and the ends are stripped. `PyStr` models the Python string built-ins the
  code relies on: `strip`, `split`, `join`, `replace`, `in`, `str(int)` and
  `int(str)`.
- **The KMP phrase matcher** (`Kmp`). The C++ `_kmpPrefix` and `kmpSearch` are
  imperative methods over a table and a `j` variable. So is their Python twin
  `kmpSearch_python`. All of them are proved equal to one functional scan.
  - The failure table compares tokens by equality; the scan compares by
    substring containment.
  - Every matched window emits all of its indices.
  - Soundness is proved; completeness holds only when no needle token hides
    inside a longer page word.
- **Page localisation** (`DataBase`). `search` sorts each page's tokens into
  reading order, runs the matcher and emits one 1-based page hit per page with
  matches. `__call__` normalises a document before it is inserted.
- **The report and session store** (`ReportStore`). `UserReportStore` is a
  class over the three SQLite tables, kept as maps.
- **Keyboards** (`Markup`) and **bot handlers** (`Bot`). These cover query
  acceptance, filter choice, report population, page turning, downloads and
  the dotted-path tag edit.
- **File-name tags** (`FileNames`, `Parsers`). `FILE_REGEX` is modelled as a
  deterministic field splitter, proved to agree with the grammar. On top of it
  sit `_filenameToDict`'s date and underscore rewrites and the cleaned word
  lists of the PDF and OCR parsers.

`Wrappers` holds `Option` and `Result`. A Python exception the code does not
catch is a `None` or a `Failure` in the model, except where a precondition
rules the failing input out; each such precondition is listed under
"## Left out". `Dicts` models a Python dict
with its insertion order as a sequence of pairs.

Where a comment and the code disagree, the model follows the code:

- The comment at dao_service/kmp_module.cpp:63 says `main()` prints
  `0 1 2 3`. The loop prints `0 1 1 2 2 3`, because overlapping windows each
  emit their run (`Kmp.MainExample`).
- Likewise, `["a","a","a"]` searched for `["a","a"]` gives `[0, 1, 1, 2]`,
  not the start list `[0, 1]` (`Kmp.OverlapExample`).

## Model

| member | source | states |
|---|---|---|
| TextClean.Lower | dao_service/nosql.py:109 | `lower()` maps A–Z into a–z, А–Я into а–я and Ё to ё, and leaves the cleaned alphabet alone |
| TextClean.RewriteChar | dao_service/nosql.py:109-110 | after lower(), replace('ё','е') and the regex, every character is in `[a-zа-я0-9 ]` and is never ё; alphabet characters are kept; ё, Ё and Е become е |
| TextClean.Rewrite | dao_service/nosql.py:109-110 | after the per-character steps every character is in `[a-zа-я0-9 ]` and no ё is left; text already in that alphabet passes unchanged |
| TextClean.Collapse | dao_service/nosql.py:111 | collapsing whitespace never lengthens the text, keeps its first and last character and adds no character |
| TextClean.CollapseNoDoubleSpace | dao_service/nosql.py:111 | after the collapse no two spaces are adjacent |
| TextClean.CollapseOfNoDoubleSpace | dao_service/nosql.py:111 | the collapse leaves text without a double space unchanged |
| TextClean.StripIsClean | dao_service/nosql.py:112 | stripping alphabet text without double spaces gives clean text |
| TextClean.CleanTextIsClean | dao_service/nosql.py:107-112 | the output has only a–z, а–я, 0–9 and spaces, no ё, no space at either end and no two spaces in a row |
| TextClean.CleanTextOfClean | dao_service/nosql.py:107-112 | clean text is a fixed point of cleaning |
| TextClean.CleanTextIdempotent | file_manager/parsers.py:100-105 | cleaning twice is cleaning once |
| TextClean.CleanText | dao_service/nosql.py:107-112 | `cleanText`: rewrite, collapse, strip. No ensures of its own; `CleanTextIsClean`, `CleanTextOfClean` and `CleanTextIdempotent` state that the result is clean, that clean text is kept, and that cleaning twice is cleaning once |
| TextClean.WordsFromEmpty | dao_service/nosql.py:475 | `split()` yields nothing exactly when the text is all whitespace |
| TextClean.WordsStripLeft | dao_service/nosql.py:475 | `split()` ignores leading whitespace |
| TextClean.WordsStripRight | dao_service/nosql.py:475 | `split()` ignores trailing whitespace |
| TextClean.WordsFromCollapse | dao_service/nosql.py:475 | `split()` does not see whether whitespace runs were collapsed |
| TextClean.Words | dao_service/nosql.py:475 | `str.split()`: every word is non-empty and holds no whitespace, and there are no words exactly when the text is all whitespace |
| TextClean.PhraseTokensAreCleanWords | dao_service/nosql.py:474-475 | splitting the rewritten phrase gives the words of its cleaned form; each is non-empty and in the alphabet, and there are none exactly when the cleaned text is empty |
| PyStr.StripLeft | api_service/bot.py:202 | the left strip is a suffix of the input; it removes only whitespace and stops at the first non-whitespace character |
| PyStr.StripRight | api_service/bot.py:202 | the right strip is a prefix of the input; it removes only whitespace and stops at the last non-whitespace character |
| PyStr.Strip | api_service/bot.py:202 | `strip()` leaves no whitespace at either end, and leaves text without end whitespace as it is |
| PyStr.StripEmptyIffWhitespace | dao_service/nosql.py:343 | `word.strip() == ""` exactly when every character is whitespace |
| PyStr.IndexOf | api_service/bot.py:376 | the first position of a separator, or None exactly when it is absent |
| PyStr.Split | api_service/bot.py:271 | `split(sep)` gives at least one piece, no piece holds the separator, and joining the pieces gives the input back |
| PyStr.SplitMax | api_service/bot.py:365 | `split(sep, k)` gives between 1 and k+1 pieces, and joining them with the separator gives the text back; `PyStr.SplitMaxPieces` states that only the last may hold the separator |
| PyStr.SplitMaxPieces | api_service/bot.py:376 | no piece but the last holds the separator, and the last holds none when fewer than k cuts were made |
| PyStr.SplitMaxNoCut | api_service/bot.py:376 | with no cut allowed, or no separator in the text, the split is the text alone |
| PyStr.SplitJoin | api_service/markup.py:62 | splitting a join gives the parts back when no part holds the separator |
| PyStr.SplitMaxOfJoin | api_service/markup.py:11 | `split(sep, n-1)` of a join of n parts gives the parts back when only the last may hold the separator |
| PyStr.Join | api_service/bot.py:271 | `sep.join(parts)` for one character, the reference inverse of `split(sep)`. No ensures of its own; `PyStr.Split` re-joins to its input and `PyStr.SplitJoin` splits a join back into its pieces |
| PyStr.JoinWith | api_service/bot.py:431 | `sep.join(parts)` for any separator. No ensures of its own; `Markup.JoinLinesHead` and `Bot.CaptionOpensWithQuery` state that the join opens with the first part |
| PyStr.NatToString | api_service/markup.py:62 | `str(n)` is a non-empty run of digits without a leading zero |
| PyStr.ParseNatToString | api_service/bot.py:273 | `int(str(n)) == n` for n ≥ 0 |
| PyStr.ParseIntToString | api_service/bot.py:366 | `int(str(i)) == i` for every integer |
| PyStr.NatToStringInjective | api_service/markup.py:60-63 | distinct indices give distinct callback digits |
| PyStr.ParseNegative | api_service/bot.py:366 | `int` reads a '-' followed by digits as the negated value |
| PyStr.IntToString | api_service/markup.py:11 | `str(i)` holds only digits and `-`; `PyStr.ParseIntToString` reads it back as i |
| PyStr.ParseInt | api_service/bot.py:273 | `int(s)` on stripped text with an optional sign and ASCII digits. No ensures of its own; `ParseNatToString`, `ParseIntToString` and `ParseNegative` state that it inverts `str` and negates after `-` |
| PyStr.FindFrom | dao_service/kmp_module.cpp:36 | the search from a position returns the first occurrence at or after it, or None when there is none |
| PyStr.Find | dao_service/kmp_module.cpp:36 | `find(t) != npos` exactly when t occurs in the word, and the position is an occurrence |
| PyStr.FindIsFirst | dao_service/kmp_module.cpp:39 | `find` reports the first occurrence |
| PyStr.Contains | dao_service/kmp_module.cpp:39 | the reference reading of `t in h`: some position where `t` occurs; `PyStr.Find` succeeds exactly when it holds |
| PyStr.ReplaceCharAt | file_manager/parsers.py:96 | `replace('_', ' ')` keeps the length and changes exactly the '_' characters |
| PyStr.ReplaceCharRemoves | file_manager/parsers.py:96 | no '_' is left after the replace |
| PyStr.ReplaceCharAbsent | file_manager/parsers.py:96 | a value without '_' is unchanged |
| PyStr.ReplacePairRemovesPair | file_manager/parsers.py:67-71 | after replacing "и"+breve by "й", no "и"+breve is left |
| PyStr.ReplacePairKeepsNoPair | file_manager/parsers.py:69-70 | the second replace creates no new "и"+breve |
| PyStr.ReplaceAll | file_manager/parsers.py:67-71 | `s.replace(pat, rep)`: text without the pattern is unchanged; `ReplaceCharAt` and `ReplacePairRemovesPair` state what the replacements leave |
| Kmp.LongestBorderFromSpec | dao_service/kmp_module.cpp:12-20 | the search from k down finds a border of length at most k, and no longer border up to k |
| Kmp.LongestBorderSpec | dao_service/nosql.py:114-128 | the longest proper border is a border, and every border is at most as long |
| Kmp.LongestBorder | dao_service/nosql.py:114-128 | the reference value of a prefix-table entry: shorter than the prefix; `Kmp.LongestBorderSpec` proves it the longest proper border |
| Kmp.PrefixTable | dao_service/kmp_module.cpp:8-22 | the reference reading of `pi`: entry i is the longest proper border of the first i+1 tokens; `Kmp.KmpPrefix` establishes it |
| Kmp.BorderOfBorder | dao_service/kmp_module.cpp:13-15 | a border of a border is a border, which is what the fallback relies on |
| Kmp.ShorterBorder | dao_service/kmp_module.cpp:13-15 | a shorter border is a border of the longer border |
| Kmp.BorderExtend | dao_service/kmp_module.cpp:16-19 | a border of length k is a border of length k-1 of the shorter list plus an equal last token |
| Kmp.ExtendLongest | dao_service/kmp_module.cpp:16-19 | extending by x, the longest border is one more than the candidate followed by x, else 0 |
| Kmp.PrefixFallbackStep | dao_service/kmp_module.cpp:13-15 | `j = lps[j-1]` strictly decreases j and moves to the next border candidate |
| Kmp.PrefixExtendStep | dao_service/kmp_module.cpp:16-19 | leaving the fallback loop, the new entry is the longest border of needle[..i+1] |
| Kmp.CandidateStart | dao_service/kmp_module.cpp:12-13 | the fallback loop for index i starts from the longest border of needle[..i] |
| Kmp.PrefixTableEntry | dao_service/kmp_module.cpp:19 | an entry of the table is the longest border of the prefix it stands for |
| Kmp.KmpPrefix | dao_service/kmp_module.cpp:8-22 | lps has length m, lps[i] ≤ i, and lps[i] is the longest proper prefix of needle[0..i] that is also its suffix (token equality) |
| Kmp.Fallback | dao_service/kmp_module.cpp:36-38 | the fallback never increases j, and stops at 0 or at a needle token the word contains |
| Kmp.Advance | dao_service/kmp_module.cpp:36-40 | reading one word advances the match by at most one token |
| Kmp.Step | dao_service/kmp_module.cpp:36-47 | one outer-loop iteration keeps j below m |
| Kmp.Scan | dao_service/kmp_module.cpp:35-49 | the scan keeps j below m after any number of words |
| Kmp.RunsSnoc | dao_service/kmp_module.cpp:41-46 | a new match start appends its whole run |
| Kmp.StepOutRuns | dao_service/kmp_module.cpp:41-46 | one step keeps the output equal to the runs of the recorded starts |
| Kmp.ScanOutRuns | dao_service/kmp_module.cpp:35-49 | the output is always the runs of the recorded starts |
| Kmp.KmpSearchRuns | dao_service/kmp_module.cpp:41-45 | the result is the concatenation of the runs start, ..., start+m-1 of the match starts |
| Kmp.KmpSearchSpec | dao_service/kmp_module.cpp:25-51 | what `kmpSearch` returns: [] for an empty needle or a shorter text, else the scan's output. No ensures of its own; `KmpSearchRuns` and `KmpSearchIndicesSound` state what the output holds, and `KmpSearch` and `KmpSearchPython` return it |
| Kmp.MatchStarts | dao_service/kmp_module.cpp:41-42 | the start of every window the search reports. No ensures of its own; `MatchStartsSound` proves each a real occurrence and `MatchStartsCompleteWhenExact` proves none missed for exact tokens |
| Kmp.FallbackTurn | dao_service/kmp_module.cpp:36-38 | one turn of the search's fallback loop strictly decreases j and does not change where it ends |
| Kmp.ScanNextMiss | dao_service/kmp_module.cpp:39 | a word lacking the next token leaves the scan at the fallback |
| Kmp.ScanNextPartial | dao_service/kmp_module.cpp:39-40 | a word holding the next token extends a partial match |
| Kmp.ScanNextFull | dao_service/kmp_module.cpp:41-46 | completing a match records its start, emits its run and falls back |
| Kmp.PushRange | dao_service/kmp_module.cpp:43-45 | the push_back loop appends exactly range(start, end) |
| Kmp.KmpSearch | dao_service/kmp_module.cpp:25-51 | the C++ search returns the functional scan's output, and [] when the needle is empty or longer than the haystack |
| Kmp.KmpSearchPython | dao_service/nosql.py:131-148 | the Python twin returns the same output as the C++ search, for every input |
| Kmp.BorderTransfer | dao_service/kmp_module.cpp:36-38 | a border of a matched needle prefix is itself matched at the same end (equality implies containment) |
| Kmp.FallbackSound | dao_service/kmp_module.cpp:36-38 | the fallback keeps the matched prefix a real match |
| Kmp.AdvanceSound | dao_service/kmp_module.cpp:39-40 | reading one more word keeps the matched prefix a real match |
| Kmp.StepSound | dao_service/kmp_module.cpp:36-47 | a step keeps the partial match real, and a recorded start is a complete match |
| Kmp.SoundStartsSnoc | dao_service/kmp_module.cpp:42 | recording a complete window keeps every start sound and increasing |
| Kmp.ScanSound | dao_service/kmp_module.cpp:35-49 | throughout the scan the partial match and every recorded start are real |
| Kmp.MatchStartsSound | dao_service/kmp_module.cpp:36-45 | for every reported start, needle[k] is a substring of haystack[start+k] for all k < m; starts increase strictly |
| Kmp.RangeMember | dao_service/kmp_module.cpp:43 | x is in range(a, b) exactly when a ≤ x < b |
| Kmp.RunsWitness | dao_service/kmp_module.cpp:41-46 | an emitted index lies in the window of some start |
| Kmp.RunsCover | dao_service/kmp_module.cpp:41-46 | every index of a start's window is emitted |
| Kmp.RunsMember | dao_service/kmp_module.cpp:41-46 | x is emitted exactly when it lies in the window of a start |
| Kmp.KmpSearchIndicesSound | dao_service/kmp_module.cpp:25-51 | every returned index is in [0, n) and lies in a window that matches the needle |
| Kmp.ExactBorder | dao_service/kmp_module.cpp:12-20 | with exact tokens, two matches ending together make the shorter prefix a border of the longer |
| Kmp.FallbackSkips | dao_service/kmp_module.cpp:36-38 | the fallback skips only border lengths whose token the word lacks |
| Kmp.StepBound | dao_service/kmp_module.cpp:36-40 | with exact tokens, no longer needle prefix matches than the step records |
| Kmp.StepComplete | dao_service/kmp_module.cpp:36-47 | with exact tokens, a step keeps j the longest partial match and records every match ending at the word |
| Kmp.CompleteStartsStep | dao_service/kmp_module.cpp:41-42 | a step that records each match ending at the word keeps the starts complete |
| Kmp.StepKeepsComplete | dao_service/kmp_module.cpp:36-47 | with exact tokens, a step keeps the recorded starts complete |
| Kmp.ScanComplete | dao_service/kmp_module.cpp:35-49 | with exact tokens, the scan misses no match |
| Kmp.MatchStartsCompleteWhenExact | dao_service/kmp_module.cpp:35-49 | when no needle token hides inside a longer page word, a window is reported exactly when it matches |
| Kmp.ContainsAt | dao_service/kmp_module.cpp:39 | an occurrence at a position means `find` succeeds |
| Kmp.SubstringMatchMissesWindow | dao_service/kmp_module.cpp:36-39 | under containment the search is incomplete: for `["a","ab","b"]` and `["a","b"]` the window at 1 matches but only the start 0 is reported |
| Kmp.DoubledStep | dao_service/kmp_module.cpp:39-46 | reading "aaa" after one matched "aa" completes a match and falls back to one token |
| Kmp.MainExample | dao_service/kmp_module.cpp:54-65 | `main()`'s input gives 0 1 1 2 2 3 |
| Kmp.OverlapExample | dao_service/kmp_module.cpp:41-46 | overlapping windows repeat indices: `["a","a","a"]` with `["a","a"]` gives 0 1 1 2 |
| Kmp.TwoWordExample | dao_service/kmp_module.cpp:25-51 | a two-word page matched in full gives 0 1 |
| DataBase.MinYSpec | dao_service/nosql.py:496-502 | `min_y` of a polygon is the y of one of its points and no point lies above it |
| DataBase.MinXSpec | dao_service/nosql.py:504-509 | `min_x` of a polygon is the x of one of its points and no point lies left of it |
| DataBase.MinY | dao_service/nosql.py:496-502 | `min(y)` over the points. No ensures of its own; `DataBase.MinYSpec` proves it some point's y and no greater than any |
| DataBase.MinX | dao_service/nosql.py:504-509 | `min(x)` over the points. No ensures of its own; `DataBase.MinXSpec` proves it some point's x and no greater than any |
| DataBase.SortKey | dao_service/nosql.py:496-509 | the key `(min_y, min_x)` exists except where Python raises: a flat list shorter than two, or an empty polygon |
| DataBase.PolygonKeyIsCorner | dao_service/nosql.py:517-520 | a polygon's key is its top-left corner: nothing lies above or left of it, and both coordinates are attained |
| DataBase.BoxPolygon | file_manager/parsers.py:228 | a PDF word box is a polygon of four points |
| DataBase.BoxPolygonKey | file_manager/parsers.py:225-228 | a stored PDF box sorts by its top-left corner (y0, x0) |
| DataBase.Insert | dao_service/nosql.py:517-520 | one insertion step adds the entry and keeps the multiset |
| DataBase.InsertSorted | dao_service/nosql.py:517-520 | inserting into a sorted list keeps it sorted and stable |
| DataBase.SortEntries | dao_service/nosql.py:517-520 | the sort is a permutation of its input |
| DataBase.SortEntriesSorted | dao_service/nosql.py:517-520 | the sort's output is ordered by key, and equal keys keep their input order |
| DataBase.Decorate | dao_service/nosql.py:517-520 | every token gets its key and position |
| DataBase.ReadingOrderSpec | dao_service/nosql.py:517-520 | `sorted(page, key=(min_y, min_x))` is a stable permutation of the page in key order |
| DataBase.ReadingOrder | dao_service/nosql.py:517-520 | `sorted(page_tokens, key=(min_y, min_x))`. No ensures of its own; `DataBase.ReadingOrderSpec` proves it a stable, key-ordered permutation of the page |
| DataBase.PositionsInPage | dao_service/nosql.py:524 | every position the matcher returns is a word of the page |
| DataBase.PageCoords | dao_service/nosql.py:527-535 | the coords list has one entry per emitted position |
| DataBase.PageCoordsAt | dao_service/nosql.py:527-535 | entry k is the coords of the sorted token at position k |
| DataBase.PageCoordsAsWrittenSpec | dao_service/nosql.py:529-534 | the loop as written succeeds exactly when every position p has p+m-1 < page length, and then it agrees with the intended coords |
| DataBase.PageEndMatchRaises | dao_service/nosql.py:531-533 | a two-word phrase matching a whole two-word page makes the tuple build read past the page |
| DataBase.PageCoordsAsWritten | dao_service/nosql.py:527-535 | the coords loop as written, None where the tuple indexes past the page. No ensures of its own; `PageCoordsAsWrittenSpec` and `PageEndMatchRaises` state when it fails |
| DataBase.PhraseTokensSpec | dao_service/nosql.py:474-479 | the phrase tokens are `cleanText(phrase).split()`; they are empty exactly when the cleaned phrase is; each is a clean word |
| DataBase.PhraseTokens | dao_service/nosql.py:474-475 | the phrase tokenisation. No ensures of its own; `DataBase.PhraseTokensSpec` states that it equals `cleanText(phrase).split()` and is empty exactly when the cleaned phrase is |
| DataBase.PageResult | dao_service/nosql.py:536-541 | a page's hit is numbered page index + 1 |
| DataBase.Outcomes | dao_service/nosql.py:515 | there is one outcome per page |
| DataBase.Somes | dao_service/nosql.py:536 | there are no more hits than pages |
| DataBase.SomesSnoc | dao_service/nosql.py:536 | one more page appends its hit, if any |
| DataBase.SomesSpec | dao_service/nosql.py:515-541 | hits come in increasing page order, and each page's hit is its outcome |
| DataBase.SomesAt | dao_service/nosql.py:515-541 | each hit is the outcome of the page it names |
| DataBase.SomesOfNumbered | dao_service/nosql.py:515-541 | the hits have increasing pages, each hit is the outcome of its page, and every page with a hit is there |
| DataBase.OutcomesNumbered | dao_service/nosql.py:515 | pages are numbered from 1 (`enumerate(..., start=1)`) |
| DataBase.PageResultSpec | dao_service/nosql.py:513-541 | a page gives a hit exactly when the matcher returns positions; the hit names the document, its 1-based page and path, and has one coords entry per position |
| DataBase.PageResultIs | dao_service/nosql.py:517-541 | a page's outcome, given its reading order and positions |
| DataBase.SearchEmptyPhrase | dao_service/nosql.py:478-479 | a phrase that cleans to nothing finds nothing |
| DataBase.SearchSpec | dao_service/nosql.py:460-544 | what `search` returns. No ensures of its own; `SearchEmptyPhrase` and `SearchHitsFromDocs` state that an empty phrase finds nothing and that every hit comes from a given document, and `DataBase.Search` returns it |
| DataBase.DocResultsOwn | dao_service/nosql.py:536-541 | every hit of a document names that document and its file |
| DataBase.DocsResultsFromDocs | dao_service/nosql.py:513-514 | every hit names a document of the cursor |
| DataBase.DocResults | dao_service/nosql.py:515-541 | the hits of one document, page by page. No ensures of its own; `DataBase.DocResultsOwn` states that they name the document and its file, and `DataBase.SearchDoc` computes them |
| DataBase.DocsResults | dao_service/nosql.py:513-541 | the hits of the cursor's documents in cursor order. No ensures of its own; `DataBase.DocsResultsFromDocs` states that every hit names a cursor document, and `DataBase.Search` computes them |
| DataBase.SearchHitsFromDocs | dao_service/nosql.py:460-544 | every search hit names a document of the cursor |
| DataBase.CollectCoords | dao_service/nosql.py:527-535 | the coords loop builds the coords of the token at each position, as evidently intended |
| DataBase.SearchPage | dao_service/nosql.py:515-541 | one page iteration returns that page's outcome |
| DataBase.SearchDoc | dao_service/nosql.py:513-541 | the page loop returns the document's hits in page order |
| DataBase.Search | dao_service/nosql.py:460-544 | `search` returns the hits of every document, in cursor order then page order |
| DataBase.Filter | dao_service/nosql.py:343 | filtering never lengthens a list |
| DataBase.FilterAppend | dao_service/nosql.py:343 | filtering distributes over concatenation |
| DataBase.FilterMembers | dao_service/nosql.py:343 | an element survives exactly when it was there and is kept |
| DataBase.FilterKeepsAll | dao_service/nosql.py:343 | a filter that keeps everything is the identity |
| DataBase.NonBlankSpec | dao_service/nosql.py:342-343 | blank removal keeps exactly the non-blank tokens, in order, and leaves a page without blanks as it is |
| DataBase.NonBlank | dao_service/nosql.py:342-343 | the blank-token filter. No ensures of its own; `DataBase.NonBlankSpec` proves that it drops exactly the blank tokens, in order |
| DataBase.BlankIffWhitespace | dao_service/nosql.py:343 | a token is removed exactly when its word is all whitespace |
| DataBase.NewDocument.constructor | dao_service/nosql.py:332-336 | the document holds the given text, pages, tags and path |
| DataBase.NewDocument.Normalize | dao_service/nosql.py:337-347 | text_clear becomes cleanText(text) and is clean; each page loses exactly its blank tokens; a missing or empty date becomes the file's date, and nothing else changes |
| FileNames.Span | file_manager/file_manager_configs.py:27 | a greedy run takes the longest prefix of class characters |
| FileNames.SpanStops | file_manager/file_manager_configs.py:27 | a run stops at the first character outside its class |
| FileNames.SpanAll | file_manager/file_manager_configs.py:27 | a run covers a whole class prefix followed by the end or an outside character |
| FileNames.RunThenDash | file_manager/file_manager_configs.py:27 | `([^-.]+)-` and `([\d._]*)-` take a run of their class followed by '-' |
| FileNames.DateThenDash | file_manager/file_manager_configs.py:27 | the date group is empty or exactly 8 digits, then '-' |
| FileNames.CourseThenDash | file_manager/file_manager_configs.py:27 | the course is 1–2 digits, then '-' |
| FileNames.SemesterThenDash | file_manager/file_manager_configs.py:27 | the semester is exactly one digit, then '-' |
| FileNames.Extension | file_manager/file_manager_configs.py:27 | the extension is a non-empty run of word characters |
| FileNames.ParseTail | file_manager/file_manager_configs.py:27 | `([^@.]*)(?:@([^.]*))?\.(\w+)` splits into teacher, optional doginfo and extension |
| FileNames.TailTextShape | file_manager/file_manager_configs.py:27 | the text the tail consumes, with and without '@' |
| FileNames.RunThenDashOf | file_manager/file_manager_configs.py:27 | a class run followed by '-' is split back |
| FileNames.DateThenDashOf | file_manager/file_manager_configs.py:27 | a date group followed by '-' is split back |
| FileNames.CourseThenDashOf | file_manager/file_manager_configs.py:27 | a course followed by '-' is split back |
| FileNames.SemesterThenDashOf | file_manager/file_manager_configs.py:27 | a semester followed by '-' is split back |
| FileNames.ExtensionOf | file_manager/file_manager_configs.py:27 | an extension before a non-word character is split back |
| FileNames.ParseTailPlain | file_manager/file_manager_configs.py:27 | a tail without '@' is split back |
| FileNames.ParseTailAt | file_manager/file_manager_configs.py:27 | a tail with '@' is split back |
| FileNames.ParseTailOf | file_manager/file_manager_configs.py:27 | the tail splitter inverts the tail's text |
| FileNames.ComposeShape | file_manager/file_manager_configs.py:27 | the text a match consumes, group by group |
| FileNames.ParseComposed | file_manager/file_manager_configs.py:26-29 | completeness: every name the grammar generates is split back into its groups |
| FileNames.ParseSound | file_manager/file_manager_configs.py:26-29 | soundness: every split is a match of the grammar |
| FileNames.ParseFileNameIff | file_manager/file_manager_configs.py:26-29 | the split is f exactly when the name matches the grammar with groups f, so the match is unique |
| FileNames.Matches | file_manager/file_manager_configs.py:26-29 | the reference reading of `FILE_REGEX.match` with groups f: the name opens with the text the groups compose, and `\w` cannot extend the extension |
| FileNames.ParseFileName | file_manager/file_manager_configs.py:26-29 | the group-by-group splitter. No ensures of its own; `ParseFileNameIff` proves it returns f exactly when `Matches` holds for f |
| FileNames.ParsedFieldsWellFormed | file_manager/file_manager_configs.py:27 | subject is non-empty without '-' or '.', number is digits, '.' and '_', date is empty or 8 digits, course 1–2 digits, semester one digit, teacher without '@' or '.', doginfo without '.', extension word characters |
| FileNames.TrailingTextIgnored | file_manager/file_manager_configs.py:26-29 | only the start is anchored: text after the extension is ignored |
| FileNames.ManagementExample | file_manager/parsers.py:407 | "Менеджмент_в_ПД--20240203-3-2-.png" gives an empty number, date 20240203, course 3, semester 2, empty teacher, no doginfo and extension png |
| Parsers.ComposeLettersComplete | file_manager/parsers.py:67-71 | after the fix no decomposed "и"+breve or "е"+diaeresis is left |
| Parsers.ComposeLetters | file_manager/parsers.py:67-71 | the two `.replace` calls. No ensures of its own; `Parsers.ComposeLettersComplete` states that no decomposed letter is left |
| Parsers.FileName | file_manager/parsers.py:72 | `Path(p).name` is the suffix after the last '/' |
| Parsers.DateFormat | file_manager/parsers.py:75 | the date reformatting succeeds exactly when YYYYMMDD is a calendar date; otherwise it raises ValueError |
| Parsers.DateFormatRoundTrip | file_manager/parsers.py:75 | the output is "DD.MM.YYYY" and reads back as the input |
| Parsers.ValidDate | file_manager/parsers.py:75 | the reference reading of strptime's `%Y%m%d`: year at least 1, month 1 to 12, day within the month |
| Parsers.DateDigits | file_manager/parsers.py:75 | reads "DD.MM.YYYY" back as "YYYYMMDD". No ensures of its own; `Parsers.DateFormatRoundTrip` uses it as the inverse of the date format |
| Parsers.ExampleDigits | file_manager/parsers.py:75 | the digit runs the two examples read |
| Parsers.LeapDayExample | file_manager/parsers.py:75 | "20240229" becomes "29.02.2024" |
| Parsers.NonLeapDayExample | file_manager/parsers.py:86 | "20230229" raises ValueError |
| Parsers.UnderscoresIdempotent | file_manager/parsers.py:96 | the underscore rewrite is idempotent |
| Parsers.SpaceValues | file_manager/parsers.py:95-96 | the loop over `res.items()` turns every '_' of every value into a space |
| Parsers.MatchToDict | file_manager/parsers.py:83-98 | after a match, the dictionary of that match, or the error the date raises |
| Parsers.RawTags | file_manager/parsers.py:83-92 | `res` before the underscore pass. No ensures of its own; `Parsers.TagsKeys` and the field lemmas state its keys and values |
| Parsers.Tags | file_manager/parsers.py:83-96 | the dictionary for a match, or the date's ValueError. No ensures of its own; `TagsFails`, `TagsKeys`, `TagsSubject`, `TagsTeacher`, `TagsNumbers`, `TagsFiletype` and `TagsDate` state each case |
| Parsers.FilenameToDict | file_manager/parsers.py:64-98 | `_filenameToDict` of a resolved path: {} without a match, else the match's dictionary |
| Parsers.FilenameToDictSpec | file_manager/parsers.py:64-98 | `_filenameToDict` on a resolved path. No ensures of its own; `Parsers.FilenameToDict` returns it, `NoMatchIsEmpty` and `TagsNonEmpty` state the two outcomes |
| Parsers.SpacedTagsSpec | file_manager/parsers.py:95-96 | the rewrite keeps the keys, leaves no '_' in any value and leaves values without '_' alone |
| Parsers.SpacedFiletype | file_manager/parsers.py:91 | the filetype keeps its leading '.' |
| Parsers.TagsNonEmpty | file_manager/parsers.py:83-92 | a match never gives {} |
| Parsers.NoMatchIsEmpty | file_manager/parsers.py:76-80 | the result is {} exactly when the pattern does not match |
| Parsers.TagsFails | file_manager/parsers.py:86 | a match raises exactly when its date group is not a calendar date |
| Parsers.TagsKeys | file_manager/parsers.py:83-96 | a match gives exactly the eight keys, and no value holds '_' |
| Parsers.TagsSubject | file_manager/parsers.py:84-85 | subject and number are their groups with '_' as space |
| Parsers.TagsTeacher | file_manager/parsers.py:89-90 | teacher and doginfo are their groups with '_' as space, "" when doginfo is absent |
| Parsers.TagsNumbers | file_manager/parsers.py:87-88 | course and semester are their digit groups |
| Parsers.TagsFiletype | file_manager/parsers.py:91 | filetype is "." followed by the extension |
| Parsers.TagsDate | file_manager/parsers.py:86 | the date is "" for an empty group, else "DD.MM.YYYY" that reads back as the group |
| Parsers.PdfTokenSpec | file_manager/parsers.py:225-229 | a PDF word is stored cleaned, with the box ((x0,y0),(x1,y0),(x1,y1),(x0,y1)), which sorts by (y0, x0) |
| Parsers.PdfToken | file_manager/parsers.py:225-228 | the stored form of a PDF word. No ensures of its own; `Parsers.PdfTokenSpec` proves the word clean and the box a 4-point polygon keyed by its top-left corner |
| Parsers.PdfPageWords | file_manager/parsers.py:223-229 | the page's word list is the stored form of each PDF word, in order |
| Parsers.OcrTokenSpec | file_manager/parsers.py:55-60 | an OCR word is stored cleaned, with its coordinates as given |
| Parsers.OcrToken | file_manager/parsers.py:55-60 | the stored form of an OCR word. No ensures of its own; `Parsers.OcrTokenSpec` proves the word clean and the coordinates kept |
| Parsers.OcrPageWords | file_manager/parsers.py:55-61 | the OCR page list is the stored form of each OCR word, in order |
| Dicts.Get | api_service/bot.py:282 | a lookup fails exactly when the key is absent, and otherwise finds a stored pair |
| Dicts.SetGet | api_service/bot.py:282 | after `d[k] = v`, k maps to v and every other key to what it mapped to |
| Dicts.SetPresent | api_service/bot.py:282 | assigning a present key keeps every key in its place |
| Dicts.SetAbsent | api_service/bot.py:282 | assigning a new key appends it |
| Dicts.SetUnique | api_service/bot.py:282 | assignment keeps keys distinct |
| Dicts.Set | api_service/bot.py:282 | `d[k] = v` in insertion order. No ensures of its own; `SetGet`, `SetPresent`, `SetAbsent` and `SetUnique` state what it reads back, where the key goes and that keys stay distinct |
| ReportStore.ReadersFailWithoutRow | api_service/report_store.py:64-72 | `get_query`, `get_filters` and `get_last_report` raise exactly when the user has no row |
| ReportStore.QueryRoundTrip | api_service/report_store.py:52-72 | `get_query` after `set_query(q)` gives q, or None for "" |
| ReportStore.FiltersRoundTrip | api_service/report_store.py:75-91 | `get_filters` after `set_filters(f)` gives f |
| ReportStore.LastReportRoundTrip | api_service/report_store.py:165-180 | `get_last_report` after `set_last_report(r)` gives r |
| ReportStore.ClearFiltersSpec | api_service/report_store.py:93-101 | an existing user reads {} afterwards; without a row nothing changes; the other columns are kept |
| ReportStore.UpsertsAreLocal | api_service/report_store.py:52-62 | each upsert changes one column of one row: other users, and the user's other columns, read as before |
| ReportStore.RowOf | api_service/report_store.py:52-62 | the row an upsert starts from: the user's row, or all NULLs for a new user. No ensures of its own; `ReportStore.UpsertsAreLocal` states that a new user's other columns read as NULL, and that an existing user's are kept |
| ReportStore.ClearedFilters | api_service/report_store.py:93-101 | the `UPDATE ... SET filters_json=NULL`. No ensures of its own; `ReportStore.ClearFiltersSpec` states that an existing user reads {} afterwards, that nothing changes without a row, and that the other columns are kept |
| ReportStore.WithQuery | api_service/report_store.py:52-62 | the `last_query` upsert. No ensures of its own; `QueryRoundTrip` and `UpsertsAreLocal` state what it reads back and what it leaves alone |
| ReportStore.WithFilters | api_service/report_store.py:75-83 | the `filters_json` upsert. No ensures of its own; `FiltersRoundTrip` and `UpsertsAreLocal` state what it reads back and what it leaves alone |
| ReportStore.WithLastReport | api_service/report_store.py:165-172 | the `last_report_id` upsert. No ensures of its own; `LastReportRoundTrip` and `UpsertsAreLocal` state what it reads back and what it leaves alone |
| ReportStore.QueryOf | api_service/report_store.py:64-72 | `get_query`. No ensures of its own; `ReadersFailWithoutRow` and `QueryRoundTrip` state that it fails exactly without a row and reads back what was set |
| ReportStore.FiltersOf | api_service/report_store.py:85-91 | `get_filters`. No ensures of its own; `ReadersFailWithoutRow` and `FiltersRoundTrip` state that it fails exactly without a row and reads back what was set |
| ReportStore.LastReportOf | api_service/report_store.py:174-180 | `get_last_report`. No ensures of its own; `ReadersFailWithoutRow` and `LastReportRoundTrip` state that it fails exactly without a row and reads back what was set |
| ReportStore.CreateReportSpec | api_service/report_store.py:107-113 | a reused id fails on the primary key and changes nothing; a fresh one adds exactly that report with its query |
| ReportStore.CreateReportIn | api_service/report_store.py:107-113 | the `reports` insert. No ensures of its own; `ReportStore.CreateReportSpec` states the IntegrityError on a reused id and the single added report otherwise |
| ReportStore.PageOfNone | api_service/report_store.py:130-135 | `get_page` is None exactly when the page row is missing |
| ReportStore.PageTotal | api_service/report_store.py:140-145 | a found page echoes its index, and its total is the live count of the report's rows, at least 1 |
| ReportStore.PageQuery | api_service/report_store.py:147-153 | the page's query is the one `create_report` stored, or "" without a report row |
| ReportStore.PageOf | api_service/report_store.py:127-162 | `get_page`. No ensures of its own; `PageOfNone`, `PageTotal` and `PageQuery` state when it is None, its index and live count, and its query |
| ReportStore.PageKeys | api_service/report_store.py:140-145 | the rows the `COUNT(*)` counts. No ensures of its own; `ReportStore.PageTotal`, `ReportStore.AddPageCount` and `Bot.StoredPagesCount` state how the count moves |
| ReportStore.PageCount | api_service/report_store.py:140-145 | the `COUNT(*)` of a report's page rows. No ensures of its own; `ReportStore.PageTotal` states that a found page counts itself, `ReportStore.AddPageCount` that a new key adds one and other reports stay, and `Bot.StoredPagesCount` that a report gets one page per result |
| ReportStore.PathJoinSpec | api_service/report_store.py:156 | `os.path.join`: an absolute name replaces the directory; otherwise the result starts with the directory and ends with the name, with one '/' inserted only when the directory is non-empty and does not end in '/' |
| ReportStore.PathJoin | api_service/report_store.py:156 | `os.path.join(img_dir, img_name)`. No ensures of its own; `ReportStore.PathJoinSpec` states its three cases |
| ReportStore.AddPageUpsert | api_service/report_store.py:115-125 | a later `add_page` for the same key replaces the earlier one, and the page reads back the latest row |
| ReportStore.AddPageCount | api_service/report_store.py:31-38 | a new key adds one to its report's count, a replaced one adds nothing, and other reports' counts do not move |
| ReportStore.AddPageTo | api_service/report_store.py:115-125 | the `pages` upsert. No ensures of its own; `AddPageUpsert` and `AddPageCount` state the replaced row and the count |
| ReportStore.UserReportStore.constructor | api_service/report_store.py:9-18 | a store over empty tables with the given image directory |
| ReportStore.UserReportStore.SetQuery | api_service/report_store.py:52-62 | inserts the row or updates `last_query` only |
| ReportStore.UserReportStore.GetQuery | api_service/report_store.py:64-72 | returns the stored query, None for NULL or "", and raises without a row |
| ReportStore.UserReportStore.SetFilters | api_service/report_store.py:75-83 | inserts the row or updates `filters_json` only |
| ReportStore.UserReportStore.GetFilters | api_service/report_store.py:85-91 | returns the stored filters, {} for NULL, and raises without a row |
| ReportStore.UserReportStore.ClearFilters | api_service/report_store.py:93-101 | sets `filters_json` to NULL for an existing row and nothing else |
| ReportStore.UserReportStore.CreateReport | api_service/report_store.py:107-113 | fails with IntegrityError exactly when the id is taken, then changing nothing; otherwise adds the report |
| ReportStore.UserReportStore.AddPage | api_service/report_store.py:115-125 | upserts the page row keyed by (report id, page index) |
| ReportStore.UserReportStore.GetPage | api_service/report_store.py:127-162 | returns None without a row, else the image path, tags, index, live count, query and document id |
| ReportStore.UserReportStore.SetLastReport | api_service/report_store.py:165-172 | inserts the row or updates `last_report_id` only |
| ReportStore.UserReportStore.GetLastReport | api_service/report_store.py:174-180 | returns the last report id, "" for NULL, and raises without a row |
| Markup.ReportKeyboard | api_service/markup.py:4-28 | the keyboard has a row of three navigation buttons and a row with the download button; `Bot.BackButton`, `Bot.ForwardButton`, `Markup.IndexLabelReadsBack` and `Bot.DownloadRoundTrip` state where each button leads and what the middle label shows |
| Markup.IndexLabelReadsBack | api_service/markup.py:15 | the middle label "{page_idx+1}/{total}" reads back as the 1-based page and the total |
| Markup.FilterLines | api_service/markup.py:33 | one " * {label} = {value}" line per filter, in order; a key without a label raises KeyError |
| Markup.JoinLinesHead | api_service/markup.py:33 | a join of non-empty lines starts with the first line's first character |
| Markup.KbInitialSpec | api_service/markup.py:32-44 | the menu exists exactly when every filter key has a label, and its caption shows "Пусто" exactly when there are no filters |
| Markup.KbInitial | api_service/markup.py:32-44 | `kb_initial`. No ensures of its own; `Markup.KbInitialSpec` states when it raises and that it shows "Пусто" exactly without filters |
| Markup.NavData | api_service/markup.py:10-20 | the page-turn callback text. No ensures of its own; `Bot.NavRoundTrip` decodes it back to the report and page |
| Markup.ChooseTagRows | api_service/markup.py:49-52 | every tag button is a row of its own; `Markup.ChooseTagRowsAppend` and `Markup.ChooseTagRowsOne` state the label order and one button per non-date key |
| Markup.ChooseTagRowsAppend | api_service/markup.py:49-52 | the rows follow the label order: the rows of a concatenation of labels are those of the first part, then those of the second |
| Markup.ChooseTagRowsOne | api_service/markup.py:50-52 | one label gives exactly one button, showing the label and leading to "filters:tag:{key}", and "date" gives none |
| Markup.KbChooseTag | api_service/markup.py:47-54 | `kb_choose_tag`. No ensures of its own; `Bot.ChooseTagOffers`, `ChooseTagDecode` and `ChooseTagComplete` state which tags it offers and where each leads, and `Markup.ChooseTagRowsAppend` and `Markup.ChooseTagRowsOne` that the buttons come one per non-date key in label order |
| Markup.KbValues | api_service/markup.py:57-65 | `kb_values`. No ensures of its own; `Markup.KbValuesShape` states its |values|+1 rows ending with the back button, and `Bot.KbValuesDecode` that button i shows value i and decodes to the tag and i |
| Markup.KbValuesShape | api_service/markup.py:57-65 | one single-button row per value, in order, then one row with the back button alone |
| Markup.ValueData | api_service/markup.py:62 | the callback text of the i-th value button. No ensures of its own; `Bot.ValueDataRoundTrip` states that `cb_set_value` decodes it to the tag and i |
| Bot.AcceptedQueryNotEmpty | api_service/bot.py:202-205 | a query that passes the length guard is not empty once stripped |
| Bot.AcceptedSession | api_service/bot.py:209-213 | after acceptance the user reads the query and the new report back, and their filters are unchanged |
| Bot.QueryTooShort | api_service/bot.py:202-205 | the guard of `search_handler`. No ensures of its own; `Bot.BotCore.SearchHandler` states that it answers with the warning and changes nothing, and `Bot.AcceptedQueryNotEmpty` that a query passing it is not empty |
| Bot.MenuReply | api_service/bot.py:215-217 | `kb_initial` as a reply, the KeyError of an unlabelled key as `Raised`. No ensures of its own; `Markup.KbInitialSpec` states both cases |
| Bot.ValueDataRoundTrip | api_service/bot.py:271-273 | `split(":")` and `int(parts[3])` invert "filters:value:{tag}:{i}" for a tag without ':' |
| Bot.KbValuesDecode | api_service/markup.py:60-64 | the i-th value button shows value i and decodes to the tag and i |
| Bot.DecodeValueData | api_service/bot.py:271-273 | `cb_set_value`'s decoding. No ensures of its own; `Bot.ValueDataRoundTrip` states that a value button decodes to its tag and index |
| Bot.TagData | api_service/bot.py:256 | `split(":")[-1]` of "filters:tag:{key}" is the key |
| Bot.LastField | api_service/bot.py:256 | `split(":")[-1]`. No ensures of its own; `Bot.TagData` states that a tag button reads back as its key |
| Bot.ChooseTagDecode | api_service/markup.py:49-52 | each tag button shows a label and decodes to its key, which is not "date" |
| Bot.ChooseTagComplete | api_service/markup.py:49-52 | every labelled tag other than "date" has its button |
| Bot.TagLabelsWellFormed | api_service/bot_config.py:11-19 | the tag labels have distinct keys without ':' |
| Bot.ChooseTagOffers | api_service/markup.py:47-54 | `kb_choose_tag` offers labelled tags other than "date", each under its label, then the back button |
| Bot.ChosenValueStored | api_service/bot.py:280-283 | after `filters[tag] = value` the tag holds the value and every other tag what it held |
| Bot.TagFiltersSpec | api_service/bot.py:326 | flattening prefixes "tags." to every key, keeps order and values, and a lookup of "tags."+k finds k's value |
| Bot.TagFilters | api_service/bot.py:326 | the "tags.{k}" flattening. No ensures of its own; `Bot.TagFiltersSpec` states the keys, values and order |
| Bot.StoredPagesRows | api_service/bot.py:392-408 | result k is stored as page k with image "{id}_{k}.png", its document's tags and its id |
| Bot.StoredPagesOthers | api_service/bot.py:392-408 | no other row of any report is added or changed |
| Bot.StoredPagesCount | api_service/bot.py:392-408 | a report without pages has exactly one page per result afterwards |
| Bot.StoredPages | api_service/bot.py:392-408 | the pages table after `_do_report`'s loop. No ensures of its own; `StoredPagesRows`, `StoredPagesOthers` and `StoredPagesCount` state the new rows, the untouched ones and the count |
| Bot.ImgNameInjective | api_service/bot.py:394 | different page indexes of a report get different image names "{report_id}_{idx}.png" |
| Bot.ImgName | api_service/bot.py:394 | the image file name of page idx. No ensures of its own; `Bot.ImgNameInjective` states that no two pages share one, and `Bot.StoredPagesRows` that page k is stored under it |
| Bot.RenderOf | api_service/bot.py:394-402 | the render request of result k. No ensures of its own; `Bot.BotCore.StorePages` and `Bot.BotCore.DoReport` state that result k is rendered from page item.page-1 into the image stored for page k, with its rectangles |
| Bot.TagLinesSpec | api_service/bot.py:428-430 | the caption lists "{label}: {value}" exactly for the labelled tags with a non-empty value |
| Bot.TagLinesAppend | api_service/bot.py:428-430 | the tag lines follow the labels' order: the lines of a concatenation of labels are those of the first part, then those of the second |
| Bot.TagLines | api_service/bot.py:428-430 | the tag lines of the caption. No ensures of its own; `Bot.TagLinesSpec` states which tags are listed and how, and `Bot.TagLinesAppend` that they keep the labels' order |
| Bot.CaptionOpensWithQuery | api_service/bot.py:423-431 | the caption opens with the quoted query |
| Bot.CaptionCountsPage | api_service/bot.py:423-425 | the caption's second line is "Результат ({page_idx+1} из {total}):" |
| Bot.ReportCaption | api_service/bot.py:423-431 | the caption of `_send_report`. No ensures of its own; `Bot.CaptionOpensWithQuery` and `Bot.CaptionCountsPage` state its first two lines, and `Bot.TagLinesSpec` the tag lines |
| Bot.PhotoIsPageImage | api_service/bot.py:415-420 | nothing is sent without a page; with an absolute image directory, the photo is the image the store names for that page |
| Bot.ReportMessage | api_service/bot.py:414-435 | `_send_report`'s photo. No ensures of its own; `Bot.PhotoIsPageImage` states that it exists exactly with a page row and shows that page's image, and `Bot.BotCore.SendReport` returns it |
| Bot.NavRoundTrip | api_service/bot.py:365-366 | `split('_', 2)` and `int` invert "rep_{id}_{idx}" when the id has no '_' |
| Bot.NavButtonTurns | api_service/bot.py:362-366 | a button whose callback is "rep_{id}_{idx}" is not "noop", so `report_nav` acts on it, and it decodes to that report and page |
| Bot.BackButton | api_service/markup.py:10-13 | the back button leads to page idx-1 exactly when idx > 0, otherwise it is "noop" |
| Bot.ForwardButton | api_service/markup.py:17-20 | the forward button leads to page idx+1 exactly when idx < total-1, otherwise it is "noop" |
| Bot.NavigationTargets | api_service/markup.py:10-20 | from a page in [0, total), every navigation button leads to a page in [0, total) of the same report |
| Bot.DecodeNav | api_service/bot.py:365-366 | `report_nav`'s decoding. No ensures of its own; `NavRoundTrip`, `BackButton` and `ForwardButton` state that page-turn buttons decode to their report and page |
| Bot.DownloadRoundTrip | api_service/bot.py:376 | the download button decodes to its document id |
| Bot.DecodeDownload | api_service/bot.py:376 | `split(":", 1)`: decodes exactly when the data holds a ':', to everything after the first one |
| Bot.SetPathReadsBack | api_service/bot.py:156-162 | after the walk every step is a dictionary and the last key holds the new value |
| Bot.SetPathKeepsSiblings | api_service/bot.py:156-162 | every key a dictionary on the path had, other than the next step, keeps its value; `Bot.SetPathKeys` states that no other key is added |
| Bot.SetPathKeys | api_service/bot.py:156-162 | each dictionary on the path holds exactly its old keys plus the next key of the path; a missing or non-dictionary step starts from a fresh `{}` and so holds only that key |
| Bot.ChangeTagReadsBack | api_service/bot.py:156-162 | after `/change_tag` the dotted path leads to the new value |
| Bot.SetPath | api_service/bot.py:156-162 | the dictionary walk. No ensures of its own; `SetPathReadsBack` states that the path leads to the value, `SetPathKeys` that each dictionary on the path gains exactly the next key (a replaced step becomes `{}` plus that key), and `SetPathKeepsSiblings` that its other keys keep their values |
| Bot.ChangeTag | api_service/bot.py:156-162 | `change_tag_cmd`'s edit. No ensures of its own; `Bot.ChangeTagReadsBack` states that the dotted path leads to the new value |
| Bot.ObjAt | api_service/bot.py:156-162 | the reference reading of a dotted path: the dictionary reached when every step is one. No ensures of its own; `Bot.SetPathReadsBack`, `Bot.SetPathKeepsSiblings` and `Bot.ChangeTagReadsBack` state the walk's result through it |
| Bot.BotCore.constructor | api_service/bot.py:55 | the handlers share the given store |
| Bot.BotCore.SearchHandler | api_service/bot.py:200-217 | a query whose cleaned form is shorter than 3 is answered with the warning and changes nothing; otherwise it is accepted |
| Bot.BotCore.AcceptQuery | api_service/bot.py:209-217 | the query is saved, then the report is created (raising on a reused id), then it becomes the last report and the filters menu is shown |
| Bot.BotCore.Accepted | api_service/bot.py:209-217 | the store and reply after acceptance: the query is saved; a reused report id raises IntegrityError and keeps the reports; otherwise the report is added with its query, becomes the last report, and the filters menu is shown. No ensures of its own; `Bot.BotCore.SearchHandler` and `Bot.BotCore.AcceptQuery` promise it |
| Bot.BotCore.CbSetValue | api_service/bot.py:269-292 | a bad callback raises; an index outside [0, len(values)) changes nothing; otherwise filters[tag] becomes values[idx] and the menu is redrawn |
| Bot.BotCore.SendReport | api_service/bot.py:414-453 | sends the page's photo, caption and keyboard, or nothing without a page |
| Bot.BotCore.DoReport | api_service/bot.py:386-411 | no results: the no-results text and no change; otherwise result k is rendered from page item.page-1 and stored as page k, and page 0 is sent |
| Bot.BotCore.StorePages | api_service/bot.py:392-408 | the loop renders and stores result k as page k, and touches nothing else |
| Bot.BotCore.ReportNav | api_service/bot.py:364-368 | a malformed callback raises; otherwise the requested page is sent |
| Bot.BotCore.CbFiltersDone | api_service/bot.py:311-337 | without a user row it raises, sends nothing and changes nothing. Otherwise the filters are flattened to "tags.{k}" keys, the stored query is searched over `docs`, and every hit belongs to a given document. No hits: the "nothing found" text and no change. Hits: result k is stored and rendered as page k of the last report, nothing else in the store changes, and the photo sent is page 0 of that report. `docs` is the cursor for the flattened filters, taken as given: the model does not filter it by tag |

## Left out

- Mongo: connection, `find`/`insert`/`distinct`, and the coarse `text_clear` regex the database evaluates (dao_service/nosql.py:485-493). `search` takes the cursor as a sequence of documents. `cb_set_value` takes `distinct`'s values as a parameter.
- cppyy and the Python to C++ bridge. `Kmp.KmpSearch` models the C++ function directly.
- The Telegram API: sending, editing and deleting messages, answering callbacks, polling, the SIGINT handler, file download and upload. A handler returns what it would send. `_do_report`'s rendering is recorded as `Bot.Render` requests; fitz and PIL are not modelled.
- `search_handler`'s message filter (text not starting with '/') and `change_tag_cmd`'s admin check and argument parsing (`split(maxsplit=3)`). The missing-document reply of `change_tag_cmd` is not modelled either.
- The write-back `self.db[doc_id] = doc` (api_service/bot.py:163). It calls a `__setitem__` that `DataBase` does not define.
- Bot.SetPath: `change_tag_cmd` mutates a nested dictionary through a cursor. The model computes the new document as a value, so aliasing between nested dictionaries is not captured.
- `uuid.uuid4()` and the clock. The report id and `created_at` are parameters of `SearchHandler`. `Bot.NavRoundTrip` assumes an id without '_', which holds for uuid4 strings (hex digits and '-', section 3 of RFC 4122).
- JSON. Tags and filters are stored as maps and ordered pairs directly.
- SQLite files. The store starts from empty tables; a pre-existing database file is not modelled.
- Bot.PhotoIsPageImage: proved only for an absolute image directory. That is the store's default (`Path(__file__).resolve().parent / "reports_imgs"`). A relative one would be joined twice.
- Parsers.FilenameToDict: takes an already resolved path. `Path.resolve()` depends on the file system.
- DataBase.Search: requires every stored token's coordinates to have a sort key: a non-empty polygon, or a flat list of at least two numbers. On other coordinates `sorted(key=(min_y, min_x))` raises IndexError (dao_service/nosql.py:496-520), which the search does not model. Both parsers store 4-point boxes (file_manager/parsers.py:228, file_manager/ocr.py:98), so indexed documents meet the requirement. `DataBase.SortKey` still gives None for the failing case.
- DataBase.SearchDoc: the same requirement as DataBase.Search, for one document.
- DataBase.SearchPage: the same requirement as DataBase.Search, for one page.
- DataBase.PageResult: the same requirement as DataBase.Search, for one page.
- DataBase.SearchSpec: the same requirement as DataBase.Search.
- Bot.BotCore.CbFiltersDone: the same requirement on `docs` as DataBase.Search. `docs` is the Mongo cursor for the flattened filters, taken as given; the model does not check that it matches them.
- PyStr.ParseInt: reads ASCII digits only. Python's `int()` also accepts digit groups split by '_' ("1_0" is 10) and non-ASCII decimal digits; the model gives None for them. The callbacks parsed at api_service/bot.py:273 and api_service/bot.py:366 are built with `str(int)` and never hold either.
- DataBase.NewDocument.Normalize: `fileDate` stands for `getTime(path)` (dao_service/nosql.py:80-91, called at dao_service/nosql.py:347): the file's modification time, read from the file system and formatted with `strftime("%d.%m.%Y")`. That string is never empty, so a normalised document always has a date; the model proves this given a non-empty `fileDate`.
- Bot.BotCore.DoReport: requires every hit's document to be in `docTags`. The source's `self.db[item["doc_id"]]` reads a document the search has just returned.
- Unicode. `str.lower()`, `\s`, `\d` and `\w` are limited to ASCII, Cyrillic А–я and Ё/ё. There is no normalisation beyond the two replacements of file_manager/parsers.py:67-71.
- Coordinates are integers. The source only compares them, so fractional PDF coordinates behave the same.
- `strftime`'s year padding for years below 1000 is not modelled.
- Kmp.MatchStartsCompleteWhenExact: completeness is proved only when no phrase token hides inside a longer page word. Under containment it is false (`Kmp.SubstringMatchMissesWindow`).
- `cb_search_all`, `cb_filters_start`, `cb_clear_filters`, `cb_filters_back`, `cb_filters_cancel`, `noop`, `/start`, `/stop`, `/del`, `/list`, `/view` and the admin file upload. They only call operations modelled here, or Telegram and Mongo.
- `callback_download`'s file read. Only the decoding of its callback (`Bot.DecodeDownload`) is modelled.
- The uniqueness of Mongo's `distinct` values is not modelled.
- `JsonHandler`, `DisplayManager`, `stopwatch.py`, `ocr.py`, `transfer.py` and `PdfParser`'s page rendering. These are file I/O, printing, timing and floating-point image scaling.

## Findings

| source | as written | input that shows it | evidently intended | confidence | as-written member | corrected member |
|---|---|---|---|---|---|---|
| dao_service/nosql.py:531-533 | for each emitted position `pos`, builds `tuple(sorted_tokens[pos + i]["coords"] for i in range(m))` and keeps entry 0. The matcher emits every index of a matched window, so the last index of a window at the end of the page reads m-1 tokens past the page and raises IndexError | a page whose sorted words are `["a", "b"]` and the phrase "a b": positions are [0, 1], and position 1 reads `sorted_tokens[2]` | one coords entry per position: the coords of `sorted_tokens[pos]` | not executed | DataBase.PageCoordsAsWritten (with DataBase.PageEndMatchRaises and DataBase.PageCoordsAsWrittenSpec) | DataBase.CollectCoords (specified by DataBase.PageCoords, used by DataBase.Search) |
