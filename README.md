# dabs: the certificate validation driver and the records-portal client, in Dafny

This project models the part of the dabs scripts that makes decisions. The
scripts work through a queue of civil-registry records in the validation
application ("Dabs"). For each record they find the certificate image on
the records portal ("Ada"), download it and upload it as evidence, skipping
whatever they cannot handle. The browser is replaced by what it would
report: the rows and cells of the queue table, the portal's answer to each
lookup, and whether each retried step of the upload form succeeds.

Files and modules:

- `wrappers.dfy` (`Wrappers`): `Option` and `Result`.
- `text.dfy` (`Text`): the Python built-ins the scripts rely on, written out. These are `str.split(sep)`, `str.split()[-1]`, `str.rjust`, `int(str)` and `os.path.splitext` with POSIX rules.
- `ada.dfy` (`AdaPortal`): the portal client `Ada`. It covers opening a session, with the fallback to a stored session cookie; typing the search criteria; the exactly-one-match rule; and the path of the downloaded file.
- `records.dfy` (`Records`): what the driver derives from one queue row. That is where the row sits, the year cutoff, the category map, the padded certificate number, the surnames, the candidate names and their order, the flat plan of lookups, the `.tif` rename and the paginator's button rule.
- `search.dfy` (`PortalSearch`): the portal search as the driver runs it. It goes candidate by candidate and stops at the first hit. It is proved equal to running the flat lookup plan up to its first hit.
- `dabs.dfy` (`DabsDriver`): the driver `Dabs`. It covers the skip counter, `_validate_cert` and `validate_all_certs`. The outcome of one record is the function `Process` of the queue and of the pages' behaviour (`Env`). The imperative methods are proved to compute exactly that.

The per-record step is modelled both ways. The functions `ReadEntry`, `Handle` and `Process` say what happens. The methods `ReadQueueEntry`, `HandleReading`, `FindAndUploadCert`, `UploadFound` and `ValidateCert` do it step by step, like the script. Each method's postcondition ties its result, and its change to the skip counter, to the function. The lemmas then state what the source promises about the function.

Four behaviours of the code are easy to misread:

- With a certificate number, the number alone is looked up once, first. After that, each candidate is looked up by name alone, and only then by name and number. Each candidate is not looked up by number first (dabs.py:147-172).
- The lookup by number alone passes no names, and typing None into the title filter raises (ada.py:53). So that first lookup never finds a certificate; the search in effect runs on the names alone (`PortalSearch.NumberAloneNeverFinds`).
- A file input that never takes the file does not skip the record. The driver goes on to the form's buttons (dabs.py:208-233).
- A row that cannot be read is not skipped. Examples are a missing cell, a year or number that is not an integer, and a person with no name. The exception leaves `_validate_cert` and ends the batch (dabs.py:109-131).

## Model

| member | source | states |
|---|---|---|
| Text.SplitJoin | dabs.py:122 | Splitting the names cell on ',' loses nothing: joining the pieces with ',' gives the cell back, and no piece holds a ','. |
| Text.LastWordSpec | dabs.py:123 | `split()[-1]` is absent (Python's IndexError) exactly when the text is all whitespace. Otherwise it is a nonempty run free of whitespace that stands in the text as a whole word, with only whitespace after it. |
| Text.RJust | dabs.py:129 | `rjust(width, fill)` has length max(len, width), ends with the text itself and is `fill` before it. |
| Text.ParseDigits | dabs.py:119 | `int` of a plain run of ASCII digits is the run's value. |
| Text.SeparatorsNotStripped | dabs.py:119 | The information separators U+001C..U+001F count as whitespace for `str.split()`. Before or after a run of digits, `int` does not strip them but rejects the text. |
| Text.ParseNegated | dabs.py:128 | `int` of a minus sign followed by digits is minus their value, so a negative number cell counts as no number. |
| Text.LeadingZeros | dabs.py:129 | Zeros put in front of a run of digits keep it a run of digits with the same value. |
| Text.SplitExt | dabs.py:179 | `splitext(p)`: root followed by extension is p. The extension is empty, or it is a '.' followed by no further '.' or '/'. A nonempty extension leaves a root whose last component has a character other than '.'. |
| Text.SplitExtFinds | dabs.py:179 | `splitext` splits off an extension exactly when the final path component has a '.' after some character other than '.'. |
| AdaPortal.Ada.constructor | ada.py:12-17 | A new client has the given download directory, cookie file and download entries. It has no cookies loaded and empty search filters. |
| AdaPortal.Ada.Open | ada.py:25-39 | Opening succeeds exactly when a new session works (`_is_working`, ada.py:96-104), or a stored cookie exists and works once loaded. With no stored cookie it fails as "no old session cookie"; with a cookie that does not work, as "the old session cookie does not work". A working new session stores the cookie named "ASP.NET_SessionId" (ada.py:112-114) and loads none; the fallback loads the stored cookie. |
| AdaPortal.GetCookie | ada.py:114 | `get_cookie(name)` is None iff no cookie has that name; otherwise it is the first cookie with that name. |
| AdaPortal.Ada.EnterCriteria | ada.py:49-57 | The category filter receives the category. The criteria go in iff there are names: without names, typing None raises and the title filter stays empty. With names, the title filter receives the names, then ' ' and the year when there is a year, then ' ' and the number when there is a nonempty number. Nothing else changes. |
| AdaPortal.MatchDecision | ada.py:63-72 | The result rows (as cell counts) mean exactly one match iff there is one row and it is not the single-cell placeholder. No rows is an IndexError, a placeholder first row is "Found no matches", and several real rows are "Found multiple matches". Each case holds in both directions. |
| AdaPortal.JoinPath | ada.py:91 | `join(dir, name)` starts with the directory and ends with the name. One character is added between them iff the directory is nonempty and does not end in '/', and that character is '/'. |
| AdaPortal.Ada.DownloadCertImage | ada.py:41-91 | The lookup types the criteria as EnterCriteria does. It succeeds iff the query has names, the rows hold exactly one match and a file is downloaded. A query without names raises before the rows are read and leaves the directory alone. On success the download directory holds just that file and the path returned is the directory joined with it. A failed match rule raises its error and leaves the directory alone; a download that never arrives empties it. Cookies are unchanged. |
| Records.Locate | dabs.py:101-103 | Queue entry `index` is on page `index // 10 + 1`, at row `index % 10`: the page is at least 1, the row below 10, and (page - 1) * 10 + row == index. |
| Records.LocateRow | dabs.py:109-111 | The located page has the located row iff index < len(queue), and that row is the queue entry at `index`. |
| Records.YearText | dabs.py:116 | `text[-4:]` is the last four characters, or all of a shorter text. |
| Records.MapCategory | dabs.py:133-142 | Exactly "Huwelijk", "Overlijden" and "Geboorte" map to a portal category: "Huwelijksakte", "Overlijdensakte" and "Geboorteakte" respectively. Every other category has none. |
| Records.CertNumber | dabs.py:128-131 | The number cell is an error iff `int` rejects it (surrounding whitespace other than U+001C..U+001F, an optional sign, ASCII digits). Otherwise there is a number iff its value is positive, and the number is the cell's text left-padded with '0' to width 4. |
| Records.PaddedNumberKeepsValue | dabs.py:128-129 | A positive cell of plain digits gives a padded number that reads as the same value. |
| Records.SurnamesOfSpec | dabs.py:122-123 | The surnames fail, as the IndexError of a blank name, iff some person's text is blank. Otherwise there is one surname per person, in order: the last word of that person's text. |
| Records.PairCountClosedForm | dabs.py:125 | n surnames give n(n-1)/2 pairs. |
| Records.PairsFrom | dabs.py:125 | The index pairs of `combinations(range(n), 2)` number PairCount(n), and each is increasing and below n. |
| Records.PairsFromComplete | dabs.py:125 | Every increasing index pair below n occurs among the pairs. |
| Records.PairsFromSorted | dabs.py:125 | The pairs come in strictly increasing lexicographic order. |
| Records.PairsFromLast | dabs.py:125 | The last pair is (n-2, n-1). |
| Records.Combinations | dabs.py:125 | `combinations(names, 2)` is taken over the surnames alone (the list as it was before `extend`), and pair k joins the surnames at the k-th index pair. |
| Records.CombinationsComplete | dabs.py:125 | Every two persons, in list order, form one of the combinations. |
| Records.Reverse | dabs.py:126 | `reversed`: same length, position k holds element len-1-k. |
| Records.Candidates | dabs.py:125-126 | The candidates number n + PairCount(n). All pairs come first; then come the single surnames, last person first. |
| Records.CandidateCount | dabs.py:125-126 | n surnames give n + n(n-1)/2 candidates. |
| Records.LastPairFirst | dabs.py:125-126 | With two or more persons, the search starts with the pair of the last two. |
| Records.CandidatePairs | dabs.py:125-126 | Every two persons, in list order, are searched for as a pair, among the first PairCount(n) candidates. |
| Records.CandidatePairAt | dabs.py:125-126 | Candidate k, for k below the number of pairs, is the combination at position m-1-k of m. |
| Records.CandidatePairsOrdered | dabs.py:125-126 | Earlier candidates are pairs of lexicographically later index pairs. |
| Records.NameStepsAppend | dabs.py:155-172 | The lookups for two consecutive runs of candidates are those of the first run followed by those of the second. |
| Records.LookupPlan | dabs.py:147-172 | The plan has 1 + 2n lookups with a number and n without one. |
| Records.FirstTrue | dabs.py:194-201 | The first true entry: true, with every earlier entry false; with none, all are false. |
| Records.Search | dabs.py:147-172 | Searching up to the first hit. The lookups tried are a prefix of the plan, and every one but the last failed. A certificate is found iff some lookup of the plan finds one, and it is what the last lookup tried found. With no hit, the whole plan was tried. |
| Records.SearchStopsAt | dabs.py:171-172 | If the first n lookups failed, the search ends at lookup n when that one hits, and with nothing when the plan has no more. |
| Records.WindowSucceeds | dabs.py:208-222 | A retried step, given as the outcomes of its attempts, succeeds within `limit` attempts exactly when one of its first `limit` outcomes is a success. |
| Records.SplitExtOfTif | dabs.py:179-181 | A path ending in ".tif" after a real stem splits into that stem and ".tif". |
| Records.TiffPath | dabs.py:179-188 | A downloaded path has an upload name iff it ends in ".tif" after a real stem, and the upload name is the path with an 'f' added (".tiff"). |
| Records.PageButton | dabs.py:254-270 | The paginator button is the first whose label reaches the target page, else the last one. There is none (IndexError) iff there are no buttons. |
| PortalSearch.TryName | dabs.py:155-172 | The lookups for one candidate (the name alone, then name and number when the name alone failed and there is a number) are the flat search over that candidate's part of the plan. |
| PortalSearch.SearchAppendHit | dabs.py:171-172 | A hit in the first part of a plan ends the search there. |
| PortalSearch.SearchAppendMiss | dabs.py:154-172 | With no hit in the first part, the search goes on through the second part, after every lookup of the first. |
| PortalSearch.SearchAppend | dabs.py:154-172 | Searching a plan of two parts: the second part is reached only when the first finds nothing. |
| PortalSearch.SearchOne | dabs.py:147-150 | A plan of one lookup makes that lookup and gives back its answer. |
| PortalSearch.SearchNamesFollowsSteps | dabs.py:154-172 | Going candidate by candidate, stopping at the first hit, is the flat search over the candidates' lookups in order. |
| PortalSearch.NumberAloneNeverFinds | dabs.py:147-150 | When lookups without names never find a certificate, as `DownloadCertImage` ensures, the driver's search finds what the names alone find. Its lookups are the number-only lookup followed by those of the names. |
| PortalSearch.CertSearchFollowsPlan | dabs.py:144-172 | The driver's search (the number alone first, then the candidates) is the flat search over `LookupPlan`. |
| DabsDriver.Returned | dabs.py:119-120 | `_validate_cert` returns False exactly at the year cutoff and raises exactly for a record it could not read. |
| DabsDriver.ReadCells | dabs.py:109-131 | A row is past the cutoff iff it has five cells and its year reads as an integer above 2017, as `int` reads it. It is readable iff it has six cells, its year reads as at most 2017, and its names and number read. A readable row gives cell 1, the year text, the surnames of cell 5 and the number of cell 3. |
| DabsDriver.ReadEntry | dabs.py:101-112 | Reading queue entry `index` off its page is reading that queue row, or a missing-row error when the queue is shorter. |
| DabsDriver.Upload | dabs.py:179-237 | Only a skip or a submission comes after a download. A file that is not a ".tif" is skipped. A ".tif" whose upload widget does not show within 5 looks is skipped. Otherwise the record is submitted iff the submit button is enabled, and skipped as "submit disabled" if not. A submission uses the upload name (".tiff"). It is marked attached iff one of the first 10 file-input attempts took the file. |
| DabsDriver.FindAndUploadFollowsPlan | dabs.py:144-237 | For a known category, the lookups made are the plan's up to its first hit. The record is skipped as not found iff every lookup of the plan fails. The outcome is a skip or a submission, never an unknown-category skip. A submission uploads the ".tiff" name of the ".tif" file the last lookup found, after the widget showed and with submit enabled. A hit is handled as `Upload` says. A hit that is a ".tif", with the widget shown and submit enabled, is submitted. |
| DabsDriver.HandleVerdicts | dabs.py:119-142 | What was read decides the kind of result. False comes only at the cutoff; an exception comes only for an unreadable row, and it is that row's error. Neither makes a lookup. |
| DabsDriver.OnlyCutoffReturnsFalse | dabs.py:116-120 | `_validate_cert(index)` returns False iff queue entry `index` exists and has a fifth cell whose year reads as an integer above 2017. |
| DabsDriver.NoLookupUnlessReadable | dabs.py:109-131 | A missing, malformed or past-cutoff row gets no lookup and no skip. It raises iff the row is missing or malformed. |
| DabsDriver.CategoryAndSearch | dabs.py:133-177 | For a readable row, an unknown category is skipped iff it maps to nothing, with no lookup. A known category is searched along its plan up to the first hit, and skipped as not found iff every lookup fails. |
| DabsDriver.SubmittedImageIsTiff | dabs.py:179-237 | A submitted image is the ".tiff" name of the ".tif" file the last lookup downloaded. The upload widget showed within its attempts, and the submit button was enabled. |
| DabsDriver.ReadQueueEntry | dabs.py:101-131 | Reading the row step by step (page and row, cells 1, 3 and 4, the year cutoff, cell 5's surnames, then the number) gives `ReadEntry`. |
| DabsDriver.ReadSurnames | dabs.py:122-123 | The loop over the comma-separated persons gives `Surnames` of the cell, failing at the first blank person. |
| DabsDriver.TryCandidate | dabs.py:155-172 | One candidate's lookups, made step by step, are `TryName`'s. |
| DabsDriver.SearchCertificate | dabs.py:144-172 | The search loop (number alone, then candidate by candidate until the first hit) makes the lookups and finds the image of `CertSearch`, and so of the flat plan. |
| DabsDriver.RetryBounded | dabs.py:194-224 | A step retried at most `limit` times. It succeeds iff one of the first `limit` attempts does, after attempts up to and including the first success; otherwise all `limit` attempts were made. |
| DabsDriver.RunBounds | dabs.py:32-38 | The batch moves the skip counter by at most one per record handled, never back. It stops before the rounds run out only on False or an exception. |
| DabsDriver.RunStep | dabs.py:37-38 | One round of the batch: True goes on with the rest from the new counter; anything else ends the batch with that value. |
| DabsDriver.Dabs.constructor | dabs.py:14-18 | The skip counter starts at the stored value, or at 0 without one. |
| DabsDriver.Dabs.Skip | dabs.py:55-57 | `_skip` adds one to the skip counter. |
| DabsDriver.Dabs.UploadFound | dabs.py:179-237 | The rename check, the two retry loops and the final button give `Upload`'s verdict, and the counter moves by one exactly on a skip. |
| DabsDriver.Dabs.FindAndUploadCert | dabs.py:144-237 | The search then the upload give `FindAndUpload`'s verdict and lookups, and the counter moves by one exactly on a skip. |
| DabsDriver.Dabs.HandleReading | dabs.py:119-142 | The cutoff, a read error, or the category chain followed by search and upload give `Handle`'s outcome. The value returned is `Returned` of the verdict, and the counter moves by one exactly on a skip. |
| DabsDriver.Dabs.ValidateCert | dabs.py:90-237 | `_validate_cert(index)` makes the lookups and reaches the verdict of `Process`. It returns False, True or raises as `Returned` says, and moves the counter by one exactly on a skip. |
| DabsDriver.Dabs.HandleRound | dabs.py:37 | One call of the step at the current counter gives `RoundVerdict`. |
| DabsDriver.Dabs.RunRound | dabs.py:37-38 | One loop turn of `validate_all_certs` keeps the batch equal to `Run` from the start: a True leaves the rest of the batch to run, anything else ends it. |
| DabsDriver.Dabs.ValidateAllCerts | dabs.py:32-38 | `while _validate_cert(skip_counter): pass` over the rounds given ends where `Run` says: the same counter, the same number of rounds and the same last value. |

## Left out

- browser.py (the Selenium wrapper) and main.py (settings and the top-level restart loop) are not part of this model. The browser appears only through the outcomes it reports.
- Logging in (`Dabs._init`), the zoom script, sorting the queue by date and the fixed sleeps are not modelled. They are browser actions that decide nothing in the model.
- The refresh loop while the queue table shows "loading" (dabs.py:93-99) is not modelled: it only reloads the page.
- `_open_certs_page` is modelled only through the button choice (`PageButton`). Its loop clicks until the active page label equals the target. That depends on the live paginator and need not end.
- Reading the skip counter and the cookie from their files is not modelled: the stored values are inputs to the constructors. Storing the new session cookie is modelled (`AdaPortal.Ada.Open`); writing the skip counter to its file (dabs.py:51-53) is not. A counter file that `int` rejects, and the `eval` of the cookie file, are not modelled.
- `Records.Locate` uses exact integer division where the source computes `int(index / 10)` in floating point. The two agree for every index below 2^53.
- `Text.ParseDigits`: `int()` also accepts underscores between digits and non-ASCII decimal digits. `ParseInt` rejects both.
- The driver's model takes the portal's answer to each lookup as an input (`Lookup`), not as a call of `DownloadCertImage`. That a lookup without names answers None is the hypothesis `PortalAnswers` of `PortalSearch.NumberAloneNeverFinds`; the other driver lemmas hold for any answers.
- `DabsDriver.ReadEntry`: every entry past the end of the queue is `RowMissing`, which raises and ends the batch. In the source, only an entry on an existing, partly filled last page raises (IndexError at dabs.py:111). For an entry on a page after the last, no paginator button reaches that page, so the loop at dabs.py:254-270 keeps clicking the last button and `_validate_cert` never returns. Non-termination is not modelled.
- `AdaPortal.Ada.DownloadCertImage`: clicking the download icon, closing popup windows and the wait for the download are collapsed into the one `downloaded` input. A timeout of the wait is `DownloadTimeout`. Failures to load the search page or to find its link, its filters or its result table (ada.py:46-65) raise in the source. They have no counterpart among the inputs.
- `DabsDriver.Upload`: the final button choice is the input `submitEnabled`. With fewer than three buttons the source raises IndexError, which is not modelled. The same holds for other failures to find a page element outside the retry loops (the table body, the upload form after `double_click`).
- `DabsDriver.Dabs.ValidateAllCerts` runs over a finite list of rounds. The source loops for as long as the step returns True, and the list bounds that.
- The rename of the downloaded file on disk, the upload itself and every other DOM effect appear only as the paths and verdicts they produce.
- `Dabs.quit` and `Ada.quit` only close the browsers and are not modelled.
