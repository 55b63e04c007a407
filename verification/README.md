# BioProject keyword search, modelled in Dafny

`bioproject_keyword_search.py` finds NCBI BioProject studies that match a set
of keywords within a registration-date window, then turns each hit into a
BioProject accession code with its abstract line. It works in three stages:

1. **Search.** One E-utilities search is made per keyword. The keyword's
   spaces become `+`. Every reply must have status 200, or the program exits.
   The returned identifier lists are pooled and deduplicated through a set.
2. **Resolution.** Each identifier is fetched from Entrez with up to three
   attempts.
   - The reply's lines are cleaned: lone `"\n"` lines are dropped and every
     other line is stripped.
   - The reply is then validated: some line must start with `"1. "` and some
     line must start with `"BioProject Accession: "`.
   - A valid reply files its abstract line under the accession code, taken
     as `split(": ")[1]` of the first accession line.
   - An invalid reply files the identifier with the cleaned lines as its
     diagnostic.
   - An identifier whose three fetches all raise is filed as
     `"Failed to fetch"`, and the `break` at line 102 then ends the whole
     loop.
3. **Output.** The results go to two CSV files: one row per accession, and
   one row per failure. The default file names are derived from the dates.

The project models these stages as pure functions and short methods.

- `wrappers.dfy`: `Option`.
- `text.dfy` (module `Text`): the Python string operations the script uses:
  - `strip()`, with Python's `isspace` character set written out;
  - `startswith`;
  - `split`, with `FindFrom`, the left-to-right scan `split` makes for the
    next separator, and `join`;
  - `replace` for single characters.
- `entrez_response.dfy` (module `EntrezResponse`): the validator, cleaning,
  first-match selection and accession-code extraction.
- `resolver.dfy` (module `Resolver`), the per-identifier loop:
  - the bounded retry: `RetryFrom` and `FetchWithRetry` define the
    three-attempt fetch, `ResolveOne` is its executable loop, and the lemmas
    `FetchedAt` and `OneRaiseIsHarmless` are about it;
  - one identifier's result: `ReplyOutcome` cleans and parses a reply,
    `OutcomeOf` combines the retry with it, `Outcomes` does so for every
    identifier, and `Diagnostic` gives a failure's text;
  - `Step` files one identifier's outcome into the two maps;
  - `Run` folds `Step` over the identifiers and is the reference definition;
    `ConvertIdsToAccessions` is the executable loop proved equal to it;
  - the remaining lemmas are about `Run`: last write wins, every value is an
    abstract line, every failed key was submitted, and an unfetchable
    identifier ends the run.
- `search.dfy` (module `Search`): building the phrase, aggregating the
  searches, deduplication, and aborting on the first non-200 status.
- `output.dfy` (module `Output`): the default file names and the rows of the
  two CSV files.
- `pipeline.dfy` (module `Pipeline`): search followed by resolution, as
  `main` chains them.

The services are inputs to the model:

- **Search service:** a function from query to `(status, idlist)`. The
  search method also returns the queries it issued, so "later keywords are
  never queried" can be stated.
- **Fetch service:** each identifier comes with a script. A script is the
  sequence of what its first, second, third call does: answer with lines,
  or raise. A call beyond the end of the script raises.
- **Rendering:** Python's `str(list)`, used in the failure diagnostic,
  becomes a parameter `show`.

Two behaviours of the code that a reader could easily expect otherwise:

- **An unfetchable identifier ends the whole run.** The comment at line 88
  says "Try 3 times, then list as failed". But the `break` at line 102 sits
  in the `else` of the retry loop, so it leaves the `for` over identifiers.
  Every identifier after the unfetchable one is never processed.
- **Cleaning drops only lines equal to `"\n"`.** Line 105 filters on
  `result != "\n"` before stripping. So a line such as `"  \n"` is not
  dropped; it survives cleaning as the empty string.

## Model

| member | source | states |
|---|---|---|
| Text.Strip | bioproject_keyword_search.py:105 | The stripped line is a slice of the line with only whitespace outside it and no whitespace at either of its ends |
| Text.StripUnique | bioproject_keyword_search.py:105 | That slice is unique: any slice with only whitespace around it and none at its ends is the stripped line |
| Text.StripIdempotent | bioproject_keyword_search.py:105 | Stripping a stripped line changes nothing |
| Text.SkipSpace | bioproject_keyword_search.py:105 | The left cut of `strip`: every character before it is whitespace and the character at it is not |
| Text.BackSpace | bioproject_keyword_search.py:105 | The right cut of `strip`: every character from it on is whitespace and the one before it is not |
| Text.FindFrom | bioproject_keyword_search.py:115 | The first occurrence of the separator at or after the start index; None exactly when there is none |
| Text.StartsWith | bioproject_keyword_search.py:67-69 | A line starts with a prefix iff it is at least as long and agrees with the prefix character by character |
| Text.Split | bioproject_keyword_search.py:34 | A split has at least one piece, and joining its pieces with the same separator gives back the original string |
| Text.Join | bioproject_keyword_search.py:34 | Joining no pieces gives the empty string; otherwise the result starts with the first piece |
| Text.SplitPiecesFree | bioproject_keyword_search.py:115 | No piece of a split contains the separator |
| Text.ReplaceChar | bioproject_keyword_search.py:150 | Same length as the input; every occurrence of the target character is replaced and every other character kept in place |
| Text.JoinSplitReplaces | bioproject_keyword_search.py:34 | Splitting on one character and joining with another equals replacing the first character by the second |
| EntrezResponse.AnyStartsWith | bioproject_keyword_search.py:67 | `any(...startswith(prefix)...)` is true iff some line starts with the prefix |
| EntrezResponse.CheckProperEntrezResponse | bioproject_keyword_search.py:60-72 | A reply is accepted iff some line starts with `"1. "` and some line starts with `"BioProject Accession: "`; each condition is necessary |
| EntrezResponse.ProperResponseMonotone | bioproject_keyword_search.py:66-72 | A reply that contains every line of an accepted reply is accepted, whatever the order and whatever extra lines it has |
| EntrezResponse.ProperResponseOrderInsensitive | bioproject_keyword_search.py:66-72 | Two replies with the same lines in any order get the same verdict |
| EntrezResponse.ProperResponseAcceptsExamples | test/test_search.py:16-35 | The six replies the unit tests expect to be accepted are accepted |
| EntrezResponse.ProperResponseRejectsExamples | test/test_search.py:20-27 | The three replies the unit tests expect to be rejected are rejected |
| EntrezResponse.Clean | bioproject_keyword_search.py:105 | The cleaned reply has exactly as many lines as the raw reply has lines other than `"\n"` |
| EntrezResponse.CleanKeepsLines | bioproject_keyword_search.py:105 | Every raw line other than `"\n"` appears stripped in the cleaned reply, in its original order, at the position given by the kept lines before it |
| EntrezResponse.FirstIndexWith | bioproject_keyword_search.py:111-114 | `[...][0]` picks the first line with the prefix; None (Python's IndexError) exactly when no line has it |
| EntrezResponse.AccessionCode | bioproject_keyword_search.py:115 | On an accession line, `split(": ")[1]` is defined and is the text after the marker up to the next `": "` or to the end of the line |
| EntrezResponse.AccessionCodeRoundTrip | bioproject_keyword_search.py:114-115 | An accession line built from a code with no `": "` in it yields that code back |
| EntrezResponse.ParseResponse | bioproject_keyword_search.py:108-116 | A record is produced iff the validator accepts; its abstract is the first `"1. "` line and its accession the code of the first accession line |
| Resolver.RetryFrom | bioproject_keyword_search.py:89-98 | At most three calls; the first answered call's lines are used and no call follows it; exhaustion iff every remaining call raises |
| Resolver.FetchedAt | bioproject_keyword_search.py:89-98 | If call `t` is the first to answer, the retry loop yields that answer after `t` calls |
| Resolver.ReplyOutcome | bioproject_keyword_search.py:105-118 | A reply is valid iff its cleaned lines pass the validator. A valid outcome's record is the parse of the cleaned reply: the first `"1. "` line and the code of the first accession line. An invalid outcome carries the rejected cleaned lines |
| Resolver.OutcomeOf | bioproject_keyword_search.py:89-118 | An identifier is unfetched exactly when all three calls raise. Otherwise its outcome is the cleaning and parsing of the lines of the first call that answered |
| Resolver.OneRaiseIsHarmless | bioproject_keyword_search.py:89-98 | A call that raises followed by one that answers gives the same outcome as answering at once |
| Resolver.Diagnostic | bioproject_keyword_search.py:99-118 | An unfetched identifier is filed as `"Failed to fetch"`; one whose reply was rejected is filed with the rendering of its cleaned lines |
| Resolver.Step | bioproject_keyword_search.py:99-118 | One identifier's turn counts one more identifier. A failing identifier's entry in the failure map is set to its diagnostic, and a valid one's accession code is set to its abstract line. An unfetched identifier stops the run. No other entry of either map changes |
| Resolver.Run | bioproject_keyword_search.py:86-102 | The run processes every identifier unless one cannot be fetched, and then stops exactly after that identifier |
| Resolver.HaltedIsFinal | bioproject_keyword_search.py:99-102 | Once the run has stopped, later identifiers change nothing |
| Resolver.ExhaustionEndsRun | bioproject_keyword_search.py:99-102 | The first unfetchable identifier adds `"Failed to fetch"` to the failure map, adds no accession and ends the run |
| Resolver.ExhaustionHidesLaterFailures | bioproject_keyword_search.py:99-102 | After exhaustion, the failure map holds exactly the failures up to and including the unfetchable identifier |
| Resolver.ExhaustionHidesLaterAccessions | bioproject_keyword_search.py:99-102 | After exhaustion, the accession map holds exactly the codes of the identifiers before it |
| Resolver.AccessionsLastWriteWins | bioproject_keyword_search.py:111-116 | The accession map's keys are exactly the codes the processed identifiers resolved to; each holds the abstract of the last identifier that resolved to it |
| Resolver.FailuresLastWriteWins | bioproject_keyword_search.py:99-118 | The failure map's keys are exactly the processed identifiers that failed; each holds the diagnostic of its last failure |
| Resolver.AccessionsHoldAbstracts | bioproject_keyword_search.py:111-116 | If every valid outcome's abstract starts with `"1. "`, every value of the accession map does |
| Resolver.FailuresAreFiled | bioproject_keyword_search.py:86-118 | Every key of the failure map is the identifier of some filed outcome |
| Resolver.FailuresAreSubmitted | bioproject_keyword_search.py:86-118 | Every key of the failure map is one of the submitted identifiers |
| Resolver.ResolvedAbstracts | bioproject_keyword_search.py:111-116 | After a whole run, every value of the accession map is a line starting with `"1. "` |
| Resolver.ResolveOne | bioproject_keyword_search.py:89-118 | The retry loop and the parse of one identifier compute the reference outcome |
| Resolver.ConvertIdsToAccessions | bioproject_keyword_search.py:75-120 | The executable loop, including its early exit, returns exactly the two maps of the reference run |
| Resolver.SecondAttemptSucceeds | bioproject_keyword_search.py:89-116 | One raise and then a valid answer files exactly one accession and no failure |
| Search.KeywordPhrase | bioproject_keyword_search.py:34 | The phrase has the keyword's length, no spaces, a `+` wherever the keyword has a space, and every other character unchanged |
| Search.Deduplicate | bioproject_keyword_search.py:54 | The result has no duplicates and exactly the elements of the input |
| Search.QueryInOrder | bioproject_keyword_search.py:33-51 | The loop over keywords: queries in order, stops right after the first non-200 status, and otherwise pools exactly the identifiers some answer returned |
| Search.SearchInBioproject | bioproject_keyword_search.py:23-57 | Keywords are queried in order; the result exists iff every status is 200. If it exists, it is duplicate-free and its elements are the union of all id lists. Otherwise the search stops at the first non-200 status and no later keyword is queried |
| Output.FileName | bioproject_keyword_search.py:148-150 | A non-default path is kept. The default becomes `stem-from-to.csv`: the stem, a `-`, the from-date, a `-`, the to-date and the `.csv` suffix, with each `/` in the dates turned into `-` and every other character kept |
| Output.DefaultNamesStayLocal | bioproject_keyword_search.py:159-161 | The names derived from the defaults never contain `/`, whatever the dates |
| Output.ResultRow | bioproject_keyword_search.py:156-157 | A row has the header's three columns: the study id, its abstract line, and a URL made of the BioProject base URL followed by the study id |
| Output.ResultUrlsDistinct | bioproject_keyword_search.py:156-157 | Two different study ids never share a URL |
| Output.Rows | bioproject_keyword_search.py:155-157 | One row per map entry, every row built from an entry, every entry's row present |
| Output.ResultTable | bioproject_keyword_search.py:152-157 | The header `study_id, desc, url`, then exactly one `[key, value, url]` row per accession |
| Output.FailureTable | bioproject_keyword_search.py:163-167 | No failure file iff the failure map is empty; otherwise exactly one `[id, diagnostic]` row per failure |
| Pipeline.SearchAndResolve | bioproject_keyword_search.py:136-141 | A report exists iff every search status is 200. It is then the run over a duplicate-free list of exactly the identifiers the searches returned. Every failed identifier was returned by some search, and every accession value is an abstract line |

## Left out

- The HTTP search (`requests.get`), the percent-encoded query URL (lines
  35-39) and the JSON decoding. The search is modelled as a function from
  query (phrase and dates) to status and id list.
- `Entrez.efetch`, `handle.readlines` and `handle.close`. These are foreign
  library calls; each identifier carries a script of call results instead.
  Exception messages are carried but not used.
- `Entrez.email` (line 81). It is process-wide client configuration with no
  logic.
- `print`, `tqdm` progress output and `exit(1)`. The abort at line 51 is
  modelled as a `None` result.
- `argparse`, the unused `--max_results` option (line 127) and the actual
  CSV file writing. The file names and the rows are modelled; opening and
  writing files is I/O.
- Python's `str(list)` rendering of the diagnostic (line 118). It is the
  parameter `show`.
- The live-endpoint tests (test/test_search.py:5-12). They depend on remote
  data.
- Search.Deduplicate: does not state the order of the result, because
  `list(set(...))` has no defined order.
- Output.Rows: does not state the order of the rows. The script writes them
  in dictionary insertion order, which the model's maps do not keep.
- Resolver.ConvertIdsToAccessions: the maps are `map`s without insertion
  order, so the order of keys in the script's dictionaries is not modelled.
