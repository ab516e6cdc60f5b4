# Net distribution notifier: a verified model

The notifier scans a mailbox for distribution-advice e-mails from five
watched issuers (IndiGrid, Embassy REIT, Bharat Highways, Capital Infra,
Nexus Trust REIT). It pulls the "Net Distribution" amount out of each
message body. For each issuer it picks the latest message that carries an
amount and has not been reported before. It then sends one notification
listing the picks, newest first, and saves their Message-IDs so that they
are not reported again.

This project models the two parts of `main.py` that hold the logic, and
proves their properties:

- `extract_total_net_distribution`. Two regular expressions and a cleanup
  `re.sub`, written out as character scanners that follow Python's
  backtracking engine (modules `Chars`, `PyStr`, `Pattern`, `Extractor`):
  - The primary, case-insensitive, multi-line pattern is matched on the
    whole text. Its `\s` may cross line breaks, so one match can span
    several lines.
  - `findall` resumes where the previous match ended. The model proves that
    this equals collecting the group at every position where the pattern
    matches, because two matches can never overlap.
  - The fallback loops over `splitlines()`, is case-sensitive, and returns
    early.
- The selection, de-duplication and commit logic of `main` (module
  `Selection`). The mailbox is a value: a search function from IMAP criteria
  to a status and ids, and a fetch function from an id to a message (date as
  an integer timestamp, Message-ID header, decoded subject, body text).
  - The loops over the issuers, the subject variants and the candidate
    messages are methods with loop invariants.
  - Each method is proved against specification predicates: `HasNew`,
    `IsSelection`, `PickedFor` and `ReportOk`.
  - The web-mail deep link of the notification is modelled with its inverse.

Modules, each with the file named after it:
`Wrappers` (an `Option` type), `Chars` (Python's character classes and
greedy runs), `PyStr` (`splitlines`, `strip`, `startswith`, `in`), `Pattern`
(the two patterns, `findall` and the cleanup), `Extractor` (the extractor),
`Selection` (the run).

Four behaviours of the code that a reader might expect to be otherwise; the
model follows the code:

- **Commas are kept.** One might expect an amount such as `2,000.00` to be
  returned without its thousands separators (`2000.00`). The cleanup
  `re.sub(r'[?₹\s]', '', …)` removes only `?`, `₹` and whitespace.
  So the code returns `2,000.00`, and `Pattern.NormaliseGroup` proves that
  the digits and commas are kept.
- **A second run need not be empty.** One might expect a second run with no
  new mail to report nothing. The code saves only the
  Message-IDs of the picks. An older candidate of the same issuer that was
  passed over is therefore still new next time, and the latest of the
  passed-over candidates is picked then (one per issuer per run).
  `Selection.RunScan` states exactly what a run saves: the seen ids plus
  the ids of the report.
- **Ties are not broken deterministically.** One might expect a fixed
  tie-break among messages of equal date. The code's candidate order comes from iterating
  a set (`list(set(...))`). The model lets that order be any order, and
  promises a latest candidate, not a particular one.
- **One message can be picked for two issuers.** The seen test uses the ids
  loaded before the run (main.py:134), not the ids updated during it. So a
  message found under two issuers can be picked for both, when it is a
  latest new candidate in both pools. `Selection.RunScan` checks new
  messages against the ids seen before the run only, and
  `Selection.SharedPickReportedTwice` shows the double pick: a message
  that is the only candidate of two issuers' pools gives two report rows
  with the same Message-ID.

## Model

| member | source | states |
|---|---|---|
| Chars.IsSpace | main.py:56 | (definition) what `\s` matches and `str.strip()` removes: Python's `str.isspace()` set, the ASCII whitespace and control separators plus the Unicode spaces |
| Chars.IsLineBreak | main.py:61 | (definition) the line boundaries of `str.splitlines()`: `\n`, `\r`, `\v`, `\f`, the file, group and record separators, NEL and the Unicode line and paragraph separators |
| Chars.RunEnd | main.py:56 | a greedy run of a character class from i ends at the first character outside the class; everything before it is in the class |
| Chars.RunEndUnique | main.py:56 | a run that covers s[i..j] and stops at a character outside the class ends exactly where the greedy run does, so backtracking into a run can never end it elsewhere |
| Chars.RunEndCovers | main.py:56 | any run of the class from i ends no later than the greedy run |
| PyStr.SplitLines | main.py:61 | `splitlines()` produces no line for the empty text and at least one line for any other text |
| PyStr.SplitLinesNoBreak | main.py:61 | no line that `splitlines()` produces contains a line-boundary character |
| PyStr.SplitLinesSingle | main.py:61 | a non-empty text without boundaries is a single line |
| PyStr.SplitLinesCons | main.py:61 | a boundary-free line followed by '\n' is split off as the first line |
| PyStr.SplitLinesConsCrLf | main.py:61 | a boundary-free line followed by "\r\n" is split off as the first line: the pair counts as one boundary |
| PyStr.BreakAtFirst | main.py:61 | the boundary search stops at the first boundary character |
| PyStr.SplitJoin | main.py:61 | round trip: splitting boundary-free lines joined with '\n' gives back the same lines |
| PyStr.TrimEnd | main.py:62 | trimming from the right removes only class characters and stops after the last character outside the class |
| PyStr.StripBounds | main.py:62 | strip removes from both ends only characters of the class; what is left starts and ends outside the class, and nothing is left only when every character was in the class |
| PyStr.StripOf | main.py:133 | `strip(chars)` leaves a text that is empty or neither starts nor ends with a stripped character |
| PyStr.StripIdempotent | main.py:133 | stripping twice is stripping once |
| PyStr.StripKeeps | main.py:133 | a text that neither starts nor ends with a stripped character (a Message-ID without angle brackets) is left unchanged |
| PyStr.Strip | main.py:62 | `strip()` never lengthens the text and leaves one that is empty or neither starts nor ends with whitespace |
| PyStr.StripAngles | main.py:133 | `strip('<>')` never lengthens the text and leaves one that is empty or neither starts nor ends with `<` or `>` |
| PyStr.StartsWith | main.py:62 | (definition) `t.startswith(w)`: w is no longer than t and is its prefix |
| PyStr.StripStartsWithE | main.py:62 | `line.strip().startswith("E")` holds exactly when the first non-whitespace character of the line is `E` |
| PyStr.OccursFrom | main.py:62 | the search from i finds w exactly when w occurs at some position at or after i |
| PyStr.Contains | main.py:62 | `w in t` holds exactly when w occurs at some position of t |
| Pattern.AmountAt | main.py:63 | a match of the amount pattern at q has its digits, its point and its end in this order, with at least one digit after the point |
| Pattern.AmountAtSound | main.py:63 | what the amount scanner finds at q matches `[?₹]?\s*[\d,]+\.\d+`, and no digit follows it |
| Pattern.AmountAtComplete | main.py:63 | whenever the amount pattern can match at q, the scanner finds a match with the same digits and point that ends no earlier, and exactly the same match when no digit follows |
| Pattern.Normalise | main.py:60 | the cleanup never lengthens its input |
| Pattern.NormaliseMembers | main.py:60 | a character survives the cleanup exactly when it is in the input and is not `?`, `₹` or whitespace |
| Pattern.NormaliseConcat | main.py:60 | the cleanup distributes over concatenation |
| Pattern.NormaliseKeeps | main.py:60 | a text without `?`, `₹` or whitespace is left unchanged |
| Pattern.NormaliseDrops | main.py:60 | a text made only of `?`, `₹` and whitespace is cleaned to nothing |
| Pattern.GroupPrefixDropped | main.py:60 | the currency sign and whitespace in front of an amount are removed entirely |
| Pattern.GroupDigitsKept | main.py:60 | the `[\d,]+\.\d+` part of an amount is kept as it is, commas included, and has that shape |
| Pattern.NormaliseGroup | main.py:60 | cleaning up a matched amount gives exactly its `[\d,]+\.\d+` part, which has that shape |
| Pattern.NormaliseAmount | main.py:65 | cleaning up what the amount pattern matched at q gives its digits-to-end part, which has the amount shape |
| Pattern.LastLineEnd | main.py:56 | the backtracking point of the trailing `\s*$` lies in the whitespace run and is a `$` position |
| Pattern.LastLineEndFacts | main.py:56 | it is the last `$` position in the run, there is none after it, and none is found only when the run holds no `$` position |
| Pattern.TailAt | main.py:56 | a match of `(amount)\s*$` at q has its parts in order and ends inside the text |
| Pattern.TailAtSound | main.py:56 | what the tail scanner finds at q matches `([?₹]?\s*[\d,]+\.\d+)\s*$`: an amount, then only whitespace up to a `$` position |
| Pattern.TailAtComplete | main.py:56 | whenever the tail can match at q, the scanner finds a match with the same digits and the same group end |
| Pattern.LazyFirst | main.py:56 | the lazy `.*?` stops at a position from q on where the tail matches |
| Pattern.LazyFirstFacts | main.py:56 | the lazy `.*?` stops at the first position from q where the tail matches, crossing no '\n', and fails only when no such position exists before the next '\n' |
| Pattern.HeadAt | main.py:56 | a match of `^E\s+` at p puts the label after at least one whitespace character |
| Pattern.HeadSound | main.py:56 | what the head scanner finds matches `^E\s+Net Distribution` at a line start, compared without regard to case |
| Pattern.LabelNotSpace | main.py:56 | the label starts with a character that is neither whitespace nor `E`, so the whitespace run before it ends exactly there |
| Pattern.HeadComplete | main.py:56 | whenever `^E\s+Net Distribution` matches at p with the label at a, the head scanner finds the label at a |
| Pattern.MatchIn | main.py:56 | a match at p has its group start at a position where the tail table holds its tail |
| Pattern.MatchAt | main.py:56 | a match of the primary pattern at p has its label, group, digits, point and end in order inside the text |
| Pattern.MatchInSound | main.py:56 | over any tail table, a match found at p has the head `^E\s+Net Distribution` at p, no '\n' between the label and the group, and no tail entry before the group start (the tail parse itself is added by `MatchAtSound`) |
| Pattern.MatchAtSound | main.py:56 | what the matcher finds at p is a parse of `^E\s+Net Distribution.*?([?₹]?\s*[\d,]+\.\d+)\s*$` |
| Pattern.MatchAtFirst | main.py:56 | the lazy `.*?` of a match takes the shortest span: at no earlier position after the label could the tail match |
| Pattern.MatchInComplete | main.py:56 | whenever the head matches at p and a tail matches at some q reachable without crossing '\n', the matcher finds a match with that label whose group starts no later than q |
| Pattern.MatchAtComplete | main.py:56 | whenever the primary pattern parses at p, the matcher finds a match at p with the same label and a group that starts no later |
| Pattern.ParseExcludes | main.py:56 | no line start inside a match of the primary pattern begins with `E`, so no other match can start inside it |
| Pattern.MatchesDisjoint | main.py:57 | a match starting at p ends before any later matching position p', so matches never overlap |
| Pattern.Scan | main.py:57 | the resuming scan lists at most one group per position it can start from |
| Pattern.FindAll | main.py:57 | `findall` of the primary pattern lists at most one group per position of the text |
| Pattern.EverySkip | main.py:57 | skipping positions where nothing matches does not change the groups collected |
| Pattern.ScanIsEvery | main.py:57 | resuming at each match end collects the same groups as trying every position |
| Pattern.EveryLast | main.py:57 | the last group collected is the group of the last matching position |
| Pattern.EveryMembers | main.py:57 | every collected group is the group of a match at some position |
| Pattern.EveryHas | main.py:57 | the group of every matching position is collected |
| Pattern.FindAllIsEvery | main.py:57 | `findall` lists the group of the primary pattern at every position where it matches |
| Pattern.EveryFacts | main.py:57-59 | the collected groups are empty exactly when nothing matches, the last one belongs to the last match, and each belongs to some match |
| Pattern.FindAllFacts | main.py:57-59 | `findall` of the primary pattern is empty exactly when it matches nowhere; its last element is the group of the last match; each element is the group of some match |
| Pattern.ScanAmounts | main.py:63 | the resuming scan of the amount pattern lists at most one amount per position it can start from |
| Pattern.FindAmounts | main.py:63 | `re.findall` of the amount pattern lists at most one amount per position of the line |
| Pattern.ScanAmountsEmpty | main.py:63-64 | `findall` of the amount pattern is empty exactly when it matches nowhere |
| Pattern.ScanAmountsEmptyIn | main.py:63-64 | over any well-formed table of amount outcomes, the resuming scan lists nothing exactly when no entry from the start position on is a match |
| Pattern.ScanAmountsShape | main.py:63 | every element of `findall` of the amount pattern cleans up to the shape `[\d,]+\.\d+` |
| Pattern.ScanAmountsLast | main.py:63-65 | the last element of `findall` of the amount pattern is the text of some amount match after whose end no further amount starts (which match is fixed by `FindAmountsLeftmost`) |
| Pattern.LeftmostExtend | main.py:63 | a search started at a position where no amount matches finds the same leftmost matches as one started just after it |
| Pattern.LeftmostUnique | main.py:63 | the leftmost non-overlapping matches from a position are unique, so they fix every element of `findall`, the last one included |
| Pattern.ScanStartsLeftmost | main.py:63 | the positions the resuming scan visits are the leftmost non-overlapping matches: each is the first match at or after the end of the one before, and none starts after the last |
| Pattern.SpellsCons | main.py:63 | putting a match in front keeps the listed texts in step with their positions |
| Pattern.ScanStartsSpell | main.py:63 | the scan lists the text of the match at each position it visits |
| Pattern.FindAmountsLeftmost | main.py:63 | `re.findall` of the amount pattern lists exactly the texts of the leftmost non-overlapping matches, in order |
| Pattern.FindAmountsFacts | main.py:63-65 | `findall` of the amount pattern is empty exactly when it matches nowhere; it lists the texts of the leftmost non-overlapping matches in order; every element cleans up to `[\d,]+\.\d+`; after the last one no further amount starts |
| Extractor.ExtractTotalNetDistribution | main.py:55-66 | the extractor returns `Extracted(body)`: the cleaned-up group of the last primary match, else the fallback's value |
| Extractor.ScanLines | main.py:61-66 | the fallback loop returns the value of the first line that yields one, or nothing |
| Extractor.LineAmounts | main.py:61 | what the lines yield has one entry per line |
| Extractor.LineQualifies | main.py:62 | a line passes the fallback's test exactly when its first non-whitespace character is `E` and `Net Distribution` occurs in it, case-sensitively |
| Extractor.FallbackValue | main.py:61-66 | (definition) the fallback's result: the value of the first line that yields one, or nothing; its properties are `FallbackFacts` |
| Extractor.LineAmount | main.py:62-65 | a line yields a value only when it qualifies and the amount pattern finds something in it |
| Extractor.Extracted | main.py:55-66 | whenever the primary pattern finds a match, the extractor returns a value |
| Extractor.LineAmountFacts | main.py:62-65 | a line yields a value exactly when its stripped text starts with `E`, it contains `Net Distribution` (case-sensitively) and it contains an amount; the value has the shape `[\d,]+\.\d+` and is the digits-to-end part of the last of the line's leftmost non-overlapping amounts (`numbers[-1]`), after which no amount starts |
| Extractor.LastAmountOfLine | main.py:63-65 | a qualifying line's value is the digits-to-end part of the last of its leftmost non-overlapping amounts |
| Extractor.FirstFoundFacts | main.py:61-66 | the first value present is nothing exactly when no value is present, otherwise the value at the first index that has one |
| Extractor.FirstFoundStep | main.py:61-66 | one step of the fallback loop: the first value from index i on is the value at i if there is one, else the first after it |
| Extractor.FallbackFacts | main.py:61-66 | the fallback yields nothing exactly when no line yields an amount, otherwise the amount of the first line that yields one |
| Extractor.PrimaryLastWins | main.py:56-60 | when the primary pattern matches, the result is the `[\d,]+\.\d+` part of the match at the last matching position |
| Extractor.FallbackOnlyWithoutPrimary | main.py:58-61 | the fallback decides the result exactly when the primary pattern matches nowhere |
| Extractor.ExtractedIsAmount | main.py:60-65 | every value the extractor returns has the shape `[\d,]+\.\d+` and is non-empty, so its truthiness test accepts it |
| Selection.SubjectsToSearch | main.py:22-28 | (definition) the five watched issuers with their subject variants, in the dictionary's order |
| Selection.SubjectsToSearchDistinct | main.py:22-28 | the watched issuers have distinct names |
| Selection.SubjectCriteria | main.py:116 | the criteria are the fixed prefix `(SUBJECT "`, then the subject variant unchanged, then the fixed suffix `")`, so the variant can be read back from them |
| Selection.SubjectCriteriaInjective | main.py:116 | different subject variants are searched with different criteria |
| Selection.SearchedIds | main.py:114-119 | every gathered id is listed in the reply to the search for some variant |
| Selection.SearchedIdsMembers | main.py:115-119 | an id is gathered exactly when the OK reply to the search for some variant lists it |
| Selection.Pool | main.py:121 | (definition) `list(set(all_email_ids))`: the set of the gathered ids, each once |
| Selection.GatherIds | main.py:114-119 | the search loop gathers the ids of every OK reply, in variant order, and skips replies that are not OK |
| Selection.CandidateOfFacts | main.py:126-136 | a message is a candidate exactly when its body yields a non-empty net distribution and its Message-ID, stripped of `<` and `>`, is not among the ids seen before; the candidate carries the message's id, date and subject, that amount, and the stripped Message-ID |
| Selection.CandidateNetDist | main.py:131-133 | with the real extractor, a message is a candidate exactly when extraction finds a value and its Message-ID is new, and the value has the shape `[\d,]+\.\d+` |
| Selection.CandidateOf | main.py:126-136 | a candidate carries the fetched message's id, date and subject, and its Message-ID header stripped of `<` and `>`, which is not among the ids seen before |
| Selection.ListedSkip | main.py:132-135 | passing over a message that is no candidate keeps `emails_info` listing each candidate looked at exactly once |
| Selection.ListedAdd | main.py:136 | appending the candidate of a message not yet looked at keeps `emails_info` listing each candidate looked at exactly once |
| Selection.CollectCandidates | main.py:125-136 | the loop over the pool lists every candidate of the pool exactly once and nothing else |
| Selection.FirstLatest | main.py:141-142 | the first row of the stable descending sort is a candidate with the latest date, and every candidate before it is strictly older |
| Selection.RecordOf | main.py:146-151 | (definition) the row appended to `data`: company, subject, date and Message-ID of the pick |
| Selection.SelectionFacts | main.py:146-152 | a pick is named after its issuer, is not among the ids seen before, and shows that the issuer has a new message |
| Selection.ProcessIssuer | main.py:113-152 | an issuer yields nothing exactly when no message of its pool is a candidate, and otherwise the row of a candidate of latest date |
| Selection.InsertByDate | main.py:159 | inserting into rows sorted newest first keeps them sorted, adds exactly the one row, and puts at the head either the new row or the old head |
| Selection.InsertMembers | main.py:159 | the rows after an insertion are exactly the old rows and the inserted one |
| Selection.SortByDateDesc | main.py:159 | the report is sorted newest first and is a permutation of the rows |
| Selection.InsertKeepsDistinct | main.py:159 | inserting a row of a new company keeps the companies distinct |
| Selection.SortKeepsDistinct | main.py:159 | sorting keeps the companies of the rows distinct |
| Selection.SortKeepsIds | main.py:159-161 | sorting keeps the set of Message-IDs of the rows |
| Selection.IdsOf | main.py:152 | the ids added to the seen set are exactly the Message-IDs of the rows |
| Selection.DeepLink | main.py:85 | the link is the web mailbox's search prefix followed by the Message-ID |
| Selection.DeepLinkRoundTrip | main.py:85 | the Message-ID can be read back from its deep link |
| Selection.DeepLinkInjective | main.py:85 | different Message-IDs give different links |
| Selection.RowsMembers | main.py:146-151 | a row is in `data` exactly when some issuer yielded it |
| Selection.Rows | main.py:146 | every row of `data` is what some issuer yielded |
| Selection.RowsEmpty | main.py:156 | `data` is empty exactly when no issuer yielded a row |
| Selection.RowsDistinct | main.py:146-151 | rows yielded with distinct company names stay distinct in `data` |
| Selection.AllPickedSnoc | main.py:113-152 | recording what the next issuer yields keeps every issuer so far correctly processed |
| Selection.NoRowsFacts | main.py:156 | a run has no rows exactly when no issuer has a new message |
| Selection.PickedDistinct | main.py:146-151 | the rows of a run name distinct companies, one row per issuer at most |
| Selection.ReportRowsPicked | main.py:156-159 | every row of the sorted report is a row some issuer yielded |
| Selection.ReportRowsNew | main.py:146-152 | every row of the report is a pick of its issuer and was not reported before |
| Selection.ReportHasRows | main.py:156-159 | every row an issuer yielded is in the sorted report |
| Selection.ReportCovers | main.py:146-159 | every issuer with a new message has a row of its company in the report |
| Selection.ReportFacts | main.py:156-161 | sorting the rows gives a report that is newest first, has one row per company, holds only picks that were not reported before, and has a row for every issuer with a new message |
| Selection.RowsStep | main.py:146-152 | one more issuer appends its row, if any, to `data` and adds exactly that row's Message-ID to the ids to save |
| Selection.ScanStep | main.py:113-152 | one turn of the issuer loop keeps its state: every issuer so far processed as `ProcessIssuer` promises, `data` their rows, the ids to save the seen ids plus theirs |
| Selection.ScanIssuers | main.py:105-152 | the loop over the issuers processes each issuer in order, appends its row if any, and adds exactly the Message-IDs of the rows to the seen ids |
| Selection.RunScan | main.py:104-161 | nothing is sent exactly when no issuer has a new message; otherwise the report is newest first, one row per company, each row a latest new message of its issuer, every issuer with a new message present, and the saved ids are the seen ids plus exactly the report's ids |
| Selection.OnlySelection | main.py:141-152 | when u is the only candidate of an issuer's pool, the only row the issuer can yield is u's |
| Selection.OnlyCandidateRow | main.py:134-152 | in a report of a run, an issuer whose only candidate is u has a row of its company carrying u's Message-ID |
| Selection.SharedPickReportedTwice | main.py:134-152 | a message that is the only candidate in the pools of two issuers appears in two distinct rows of the report with the same Message-ID, because the seen test uses only the ids seen before the run |
| Selection.NotifierRun | main.py:104-161 | the run over the five watched issuers with the real extractor has the properties of `RunScan` |

## Left out

- IMAP login, search and fetch, and SMTP sending (main.py:99-101, 109-111, 154) are network I/O. The mailbox is a pair of functions, and the outcome says what would be sent and saved.
- `send_email_with_table`'s HTML table, `strftime` and the `print` messages are presentation only. Only the deep link of each row is modelled.
- `get_email_body` is not part of this model. It relies on the MIME walker and the HTML-to-text conversion of foreign libraries, so the body is an opaque string of a fetched message.
- Reading and writing the JSON seen file (main.py:31-39) is file I/O. The seen ids are passed in, and the ids to save are part of the outcome.
- `decode_header`, the charset decoding of the subject, and `parsedate_to_datetime` are library calls. The subject is an opaque string and the date an integer timestamp.
- `messages[0].split()`, which splits the byte string of ids, is a library call. A search reply holds its ids already split.
- A message without a `Date` header, a message whose body yields an amount but that has no `Message-ID` header, and a fetch or search that raises, make the Python program crash. (The `Message-ID` header is read only after the amount test, main.py:131-133, so a message without one whose body yields no amount is skipped without a crash.) The model's messages always have both headers, and its mailbox functions are total.
- `load_dotenv` and the environment variables are configuration.
- Pattern.IsAmount: `\d` is the ASCII digits, while Python's `\d` on `str` also matches other Unicode decimal digits.
- Pattern.LabelAt: `re.IGNORECASE` is modelled as ASCII case folding. Python also folds a few non-ASCII letters onto `i` and `s` (dotless and dotted I, long s).
- Selection.ProcessIssuer: "an empty union is skipped without any fetch" cannot be observed, because fetching from the modelled mailbox has no effect. The method does return before fetching anything when the pool is empty.
- Selection.FirstLatest: the in-place `emails_info.sort` is not carried out. The model computes its first element, the earliest-listed candidate of the latest date, and lets the listing order be any order a set iteration may give.
- Selection.SortByDateDesc: promises only that the report is sorted newest first and is a permutation of the rows. The order pandas gives to rows of equal date is not promised.
- Selection.CollectCandidates: the order in which a set is iterated is left open (any order), since `list(set(...))` does not fix it.
- Pattern.ScanAmountsLast: fixes only where the last amount ends, not where it starts. Which match it is comes from `Pattern.FindAmountsLeftmost`, whose leftmost matches are unique (`Pattern.LeftmostUnique`); `Pattern.FindAmountsFacts` and `Extractor.LineAmountFacts` state it.
