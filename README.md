# Factuality claim verification, modelled in Dafny

Factuality fact-checks a statement. It splits the statement into claims. For each claim it searches the web, then judges the claim against chunks of each search result with a language model. This project models the deterministic core of that process and proves properties of it:

- **The chunker** (`split_with_overlap` in `factuality/fact_check/fact_check.py`). It cuts a source text into windows of `chunk_size` characters. Each window starts `chunk_size - overlap` characters after the previous one. If any text remains after the last window, it is emitted as one final chunk. The model is the method `FactCheck.SplitWithOverlap`, a `while` loop proved equal to the specification function `FactCheck.Split`.
- **The claim checker** (`check_claim`). It walks the ranked search results of one claim. It skips hosts already used when the same site may not be used twice, and stops once the per-claim budget is reached. For each source it judges the chunks in order, and the first judgment that does not raise decides that source's record. If nothing was recorded, it returns one synthetic inconclusive record. The model is the method `FactCheck.CheckClaim`, two nested loops with `continue` and `break`, proved equal to the specification function `FactCheck.ClaimChecks`. `ClaimChecks` is a fold over the sources that carries the state `claim_checks` and `sources_used` (`FactCheck.Progress`).
- **Helpers of the command-line entry point** (`factuality/__main__.py`):
  - `strtobool` (`Cli.StrToBool`);
  - the file-name stem built from the first 20 characters of the statement (`Cli.FilenameStem`);
  - `transform_claims`, which groups checked-claim records by `(claim, verification_query)` for the JSON output. The model is the method `Cli.TransformClaims`, a loop over a map, proved equal to the reference definition `Cli.Grouped`.

Collaborators the core calls are parameters of the model:

- The language-model judgment of one chunk is `judge: (claim, chunk) -> Option<Result>`. `None` stands for the exception path: the call raised, timed out, or returned no parsed payload.
- `urlparse(url)[1]` is `host: string -> string`, a total function (see "## Left out" for what happens when `urlparse` raises).

`check_claim` is declared `async` but has no `await`, so it is modelled as sequential code.

Three behaviours of the code are easy to misread; the model follows the code:

- **Trailing chunk.** After the last full window the code also emits the remainder. `split_with_overlap("abcdefgh", 5, 2)` gives `["abcde", "defgh", "gh"]` (`FactCheck.SplitExample`). A trailing remainder is emitted whenever the overlap is positive and the text holds at least one full window (`FactCheck.TrailingChunkEmitted`).
- **Quote rule.** The program's own `SYSTEM_PROMPT` (factuality/fact_check/fact_check.py:45-49) asks the model for a quote exactly for verified and rejected outcomes. The code does not enforce this. It only guarantees that inconclusive records have no quote. A verified or rejected record carries whatever quote the judge returned, which may be `None` (`FactCheck.VerifiedWithoutQuote`).
- **Chunker termination.** The code never checks its arguments. The loop terminates exactly when `chunk_size > overlap` or no full window fits (`len(text) < chunk_size`). `FactCheck.NoProgressWithoutStep` shows the offset never advances otherwise. `SplitWithOverlap` requires exactly this of its text (`FactCheck.Chunkable`). `CheckClaim` requires it only of the sources its outer loop reaches, that is, not skipped as a used host and before the budget `break` (`FactCheck.WalkTerminates`). Requiring it of every source (`FactCheck.Terminates`) is sufficient (`FactCheck.TerminatesSuffices`) but not necessary (`FactCheck.BudgetSparesUnsplittableSource`). A negative overlap is allowed and leaves gaps between chunks. The coverage lemmas assume `0 <= overlap < chunk_size`.

## Model

| member | source | states |
|---|---|---|
| `FactCheck.SplitWithOverlap` | factuality/fact_check/fact_check.py:32-42 | the `while` loop that appends windows and then the remainder computes exactly `Split(text, chunkSize, overlap)`; it requires `chunkSize > overlap` or `len(text) < chunkSize`, the two cases in which the loop terminates |
| `FactCheck.NoProgressWithoutStep` | factuality/fact_check/fact_check.py:35-38 | when `chunk_size <= overlap` and one window fits, the window at every later offset `k*(chunk_size-overlap)` also fits, so the loop never ends; the precondition of `SplitWithOverlap` excludes exactly these inputs |
| `FactCheck.SplitFromChunk` | factuality/fact_check/fact_check.py:35-41 | from any offset `start`, chunk `i` is `text[start+i*step : min(start+i*step+chunk_size, len)]`; every chunk but the last is a full window; with `overlap >= 0` the last chunk ends at `len(text)` |
| `FactCheck.ChunkAt` | factuality/fact_check/fact_check.py:35-41 | chunk `i` starts at offset `i*(chunk_size-overlap)` and runs to `min(start+chunk_size, len(text))`; no chunk is longer than `chunk_size`; every chunk before the last has exactly `chunk_size` characters |
| `FactCheck.SplitEdgeCases` | factuality/fact_check/fact_check.py:35-41 | empty text gives `[]` (for `chunk_size > 0`; a window of 0 gives `[""]`); non-empty text shorter than `chunk_size` gives exactly `[text]` |
| `FactCheck.LastChunkReachesEnd` | factuality/fact_check/fact_check.py:38-42 | with `0 <= overlap`, a non-empty text has at least one chunk, and the last chunk is a suffix of the text ending at `len(text)` |
| `FactCheck.TrailingChunkFrom` | factuality/fact_check/fact_check.py:38-42 | with `overlap > 0`, from any offset where a full window fits, the output ends with a remainder chunk of at least `overlap` and fewer than `chunk_size` characters |
| `FactCheck.TrailingChunkEmitted` | factuality/fact_check/fact_check.py:38-42 | with `overlap > 0` and `len(text) >= chunk_size`, at least two chunks are emitted and the last is a remainder shorter than `chunk_size` |
| `FactCheck.SplitExample` | factuality/fact_check/fact_check.py:32-42 | `("abcdefgh", 5, 2)` gives `["abcde", "defgh", "gh"]` |
| `FactCheck.ReassembleFrom` | factuality/fact_check/fact_check.py:32-42 | from any offset `start <= len(text)`, keeping the first `step` characters of each chunk but the last, followed by the whole last chunk, gives back `text[start:]` |
| `FactCheck.ChunksReassemble` | factuality/fact_check/fact_check.py:32-42 | with `0 <= overlap < chunk_size` the chunks cover the whole text without gaps: their non-overlapping parts concatenate to exactly `text` |
| `FactCheck.CheckClaim` | factuality/fact_check/fact_check.py:52-143 | the nested loops, with the skip, budget `break`, per-chunk `break` and exception path, return exactly `ClaimChecks(claim, sources, settings, judge, host)`; it requires only that the chunker terminate on the sources the loop reaches |
| `FactCheck.FirstAnsweredChunk` | factuality/fact_check/fact_check.py:69-130 | a source gives no record exactly when every chunk's judgment failed; otherwise the first chunk `k` whose judgment did not fail decides the record, and chunks after `k` play no part |
| `FactCheck.JudgedRecord` | factuality/fact_check/fact_check.py:100-125 | a record produced by a source copies the claim's fields, has `source_reference` equal to that source's URL, and has no quote when inconclusive |
| `FactCheck.BudgetReachedStops` | factuality/fact_check/fact_check.py:64-68 | once `validation_checks_per_claim <= len(claim_checks)`, the loop ends whatever sources remain, and no later source changes the state |
| `FactCheck.FailedSourceIsTransparent` | factuality/fact_check/fact_check.py:100-130 | a source whose judgments all fail neither records a result nor marks its host, so the walk continues as if it were absent |
| `FactCheck.AllFailuresRecordNothing` | factuality/fact_check/fact_check.py:126-130 | when no source yields a record, because every judgment made on its chunks errored, the walk records nothing |
| `FactCheck.WalkBounds` | factuality/fact_check/fact_check.py:64-125 | the walk only appends, adds at most one record per source, and ends with at most `max(validation_checks_per_claim, records so far)` records |
| `FactCheck.WalkInvariant` | factuality/fact_check/fact_check.py:62-125 | entry `k` of `sources_used` is the host of record `k`'s source, so a host is marked only when a record from it is appended; every record is made from the claim; without same-site use the used hosts stay distinct |
| `FactCheck.WalkOrigins` | factuality/fact_check/fact_check.py:64-125 | each new record is exactly the record its source produces, and the producing source indices strictly increase |
| `FactCheck.TerminatesSuffices` | factuality/fact_check/fact_check.py:64-71 | when the chunker terminates on every source's text, the loop terminates from any state |
| `FactCheck.BudgetSparesUnsplittableSource` | factuality/fact_check/fact_check.py:64-71 | with window 5 and overlap 10, sources `"ab"` then `"abcdefgh"` and a budget of 1, the second source is never split: the loop terminates with one record although the chunker would not stop on `"abcdefgh"` |
| `FactCheck.WalkPrefix` | factuality/fact_check/fact_check.py:62-125 | the loop is a fold: the state in which it reaches source `i` is the walk over the first `i` sources, and the rest of the walk continues from that state |
| `FactCheck.ReachedSourceRecorded` | factuality/fact_check/fact_check.py:64-125 | conversely to `WalkOrigins`: a source reached with its host not blocked and the budget not met is split, and the record it yields is the next record appended |
| `FactCheck.AnsweredSourceInResult` | factuality/fact_check/fact_check.py:64-132 | the same for the result of `check_claim`: such a source's record is in the result, right after the records of the earlier sources |
| `FactCheck.FirstSourceDecides` | factuality/fact_check/fact_check.py:64-132 | with a positive budget the first source is always split, and a record it yields is the first record of the result |
| `FactCheck.NeverEmpty` | factuality/fact_check/fact_check.py:131-143 | the result is never empty; it is the single synthetic inconclusive record exactly when no source produced a record |
| `FactCheck.FallbackCases` | factuality/fact_check/fact_check.py:131-143 | no sources, a budget of 0 or less, or every judgment on the sources' chunks erroring each give exactly `[INCONCLUSIVE, source_reference=None, source_quote=None]` |
| `FactCheck.Budget` | factuality/fact_check/fact_check.py:64-68 | the result has at most `max(validation_checks_per_claim, 1)` records and at most `max(len(sources), 1)` |
| `FactCheck.SameSiteDeduplicated` | factuality/fact_check/fact_check.py:65-66 | when `same_site_allowed` is false, no two records share a host |
| `FactCheck.RecordsCopyClaim` | factuality/fact_check/fact_check.py:100-143 | every returned record copies `claim`, `reference` and `verification_query` from the input claim, and no inconclusive record has a quote |
| `FactCheck.SourceOrder` | factuality/fact_check/fact_check.py:64-125 | unless the result is the fallback, record `k` is the record that source `idx[k]` produces, with `idx` strictly increasing (records follow source order) |
| `FactCheck.VerifiedWithoutQuote` | factuality/fact_check/fact_check.py:100-110 | a verified judgment without a quote is recorded as verified with `source_quote=None` |
| `FactCheck.DefaultSettingsValid` | factuality/utils/defaults.py:8-9 | with the default article length 5000 and overlap 500, the chunker terminates on every text |
| `Cli.StrToBoolSpellings` | factuality/__main__.py:19-22 | a `bool` is returned unchanged; a string gives true exactly when it is `1`, `t` or `true` in any mix of letter cases |
| `Cli.StrToBoolExamples` | factuality/__main__.py:22 | `"True"`, `"T"` and `"1"` are true; `"yes"`, `""` and `"0"` are false |
| `Cli.StrToBool` | factuality/__main__.py:19-22 | a `bool` is returned as is; a string is lower-cased and compared with `"true"`, `"1"` and `"t"`, so only a string of 1 to 4 characters can be true |
| `Cli.Lower` | factuality/__main__.py:22 | `val.lower()` keeps the length and lower-cases each character (ASCII letters only; see "## Left out") |
| `Cli.ReplaceSpacesAt` | factuality/__main__.py:224 | `replace(' ', '_')` turns each space into `_` and leaves every other character in place |
| `Cli.ReplaceSpaces` | factuality/__main__.py:224 | `replace(' ', '_')` keeps the length (position by position: `Cli.ReplaceSpacesAt`) |
| `Cli.StripNonAscii` | factuality/__main__.py:224 | `re.sub(r'[^\x00-\x7F]+', '', ...)` drops the characters above `0x7F` one by one, so it never lengthens the text |
| `Cli.FilenameStem` | factuality/__main__.py:224 | the stem is `statement[:20]` with spaces replaced and non-ASCII runs deleted, so it is at most 20 characters long |
| `Cli.StripNonAsciiProperties` | factuality/__main__.py:224 | deleting non-ASCII runs leaves only ASCII characters taken from the input, never lengthens the text, and leaves ASCII text unchanged |
| `Cli.StripNonAsciiFilters` | factuality/__main__.py:224 | deleting the runs of `[^\x00-\x7F]+` works character by character: it distributes over concatenation, and one character is kept exactly when it is ASCII |
| `Cli.StripNonAsciiKeeps` | factuality/__main__.py:224 | the result is the input at strictly increasing positions, and every position holding an ASCII character is among them: exactly the ASCII characters are kept, in order |
| `Cli.FilenameStemProperties` | factuality/__main__.py:224 | the stem has at most 20 characters, all ASCII, none a space; for a statement whose first 20 characters are ASCII it is those characters with spaces turned into `_` |
| `Cli.FilenameStemCharacters` | factuality/__main__.py:224 | for any statement, the stem is exactly the ASCII characters among its first 20, in order, each space turned into `_` |
| `Cli.TransformClaims` | factuality/__main__.py:285-308 | the loop over the `defaultdict` yields exactly `Grouped(records)`: one entry per key in insertion order, with the last reference and the collected evidence |
| `Cli.AbsentKeyHasNoEvidence` | factuality/__main__.py:287-292 | a key not seen yet has no evidence, matching the empty list of a fresh `defaultdict` entry |
| `Cli.KeysDistinctAndComplete` | factuality/__main__.py:294-296 | the group keys are distinct, and a key has a group exactly when some record has that key |
| `Cli.KeysOfPrefix` | factuality/__main__.py:294-296 | the keys seen after a prefix of the input are a prefix of the final key order (insertion order never changes) |
| `Cli.EarlierKeyOccursFirst` | factuality/__main__.py:294-296 | wherever group `b`'s key occurs, the key of every earlier group `a` has already occurred |
| `Cli.OneEntryPerKey` | factuality/__main__.py:294-299 | exactly one group per distinct `(claim, verification_query)`: no two groups share a key, every record's key has a group, every group's key comes from a record |
| `Cli.EntriesInFirstAppearanceOrder` | factuality/__main__.py:294-307 | the groups are listed in order of their key's first appearance in the input |
| `Cli.SeparateGroupsPerQuery` | factuality/__main__.py:295 | two records with the same claim text and different queries form two groups, each with its own evidence |
| `Cli.EvidenceGrowsByOne` | factuality/__main__.py:300-304 | appending one record adds one evidence entry across the groups of the given keys for each time its key is listed |
| `Cli.CountDistinct` | factuality/__main__.py:294-296 | in a list of distinct keys a key is counted once if present, else zero times |
| `Cli.EvidenceAccountsForEveryRecord` | factuality/__main__.py:300-304 | the evidence lists of all groups hold together exactly as many entries as there are input records |
| `Cli.ReferenceOfLastRecord` | factuality/__main__.py:298 | the reference kept for a key is that of the last record with that key |
| `Cli.GroupReference` | factuality/__main__.py:298 | group `a`'s `reference` is the reference of the last input record with its key, because the field is overwritten on every match |
| `Cli.EvidenceInInputOrder` | factuality/__main__.py:300-304 | the evidence for a key lists exactly the records with that key, in input order |
| `Cli.GroupEvidence` | factuality/__main__.py:300-304 | group `a`'s evidence holds `result`, `source_reference` and `source_quote` of exactly the records with its key, in input order |
| `Cli.TransformClaimsAsWritten` | factuality/__main__.py:294-308 | as written, the function reads `data["factuality"]["claims"]` through Python subscripting and iteration, so it returns only for a dict holding a dict with `"claims"` under `"factuality"` |
| `Cli.Subscript` | factuality/__main__.py:294 | `v[key]` for a string key returns exactly when `v` is a dict holding the key, and then returns its value; a list or a string raises `TypeError`, a dict without the key (a record dict among them) raises `KeyError` |
| `Cli.IteratedRecords` | factuality/__main__.py:294-295 | the `for` loop's reads: a list gets through only when its elements are the record dicts, and then yields their records in order; an empty dict or string yields none; a record dict, or any other value, raises when `claim["claim"]` is read |
| `Cli.CallSiteAlwaysRaises` | factuality/__main__.py:263 | handed any list, and in particular the list of dumped records the call in `main()` builds, the as-written function raises |
| `Cli.DocumentIsGroupedInTuple` | factuality/__main__.py:294-308 | handed the document `{"factuality": {"claims": [...]}}`, the as-written function groups exactly as `Grouped`, but returns the groups in a one-element tuple |

## Left out

- The OpenAI calls: the chunk judgment (factuality/fact_check/fact_check.py:87-98), claim extraction (factuality/claim_splitter/claim_splitter.py) and both final-conclusion versions. They are opaque external calls; the judgment is the `judge` parameter.
- The judgment is modelled as a function, so it is deterministic. A real language model may answer the same chunk differently on two calls.
- `Conclusion.score` is described as 0-100, but nothing enforces that range. The conclusion step is not modelled.
- The Tavily search wrapper, which also ignores its `allowlist` argument. Gist publishing, Postgres persistence and the FastAPI server in main.py. All are network or database I/O.
- The pipeline runner that joins extraction, search, verification and conclusion. factuality/runner/factuality.py is not part of this model.
- The search-result type. factuality/search/search.py is not part of this model; `SearchResult` keeps only the `url` and `text` that `check_claim` reads.
- Logging, `asyncio` and any concurrency. `check_claim` never awaits.
- FactCheck.CheckClaim, FactCheck.Budget, FactCheck.WalkBounds: `urlparse` is assumed never to raise. It raises `ValueError` on a network location with an unmatched `[`, e.g. `http://[x/page`. At fact_check.py:65, with same-site use off, that error leaves `check_claim`. At lines 111 and 124 it is raised inside the `try`, after the record was appended, so the `break` is skipped. The next chunk of the same source can then append another record, and the budget can be exceeded. None of this is modelled.
- The rest of `main()`: argument parsing, environment variables, file writes, console output and the timestamp suffix of the file name. One consequence is left unmodelled: `strtobool(os.getenv('GITHUB_GIST_ENABLED'))` receives `None` when the variable is unset, and `None.lower()` raises.
- Negative chunk sizes. With them Python slices with negative indices. `chunkSize` is a `nat`.
- Cli.StrToBoolSpellings: folds case on ASCII letters only. Python's `str.lower()` covers all of Unicode. The truth value agrees as long as no non-ASCII character lowercases to one of the ASCII characters of `true`, `1` or `t`; the model assumes this.
- Pydantic serialisation (`model_dump`, aliases, enum values): records and evidence entries are modelled as datatypes. In the as-written `transform_claims` a dumped record is the value `PyRecord`.
- Cli.TransformClaimsAsWritten: a plain dict that a caller builds with every key of a record is not recognised as a record. It is a `PyDict`, which the model lets through only when empty. `main()` never passes one.

## Findings

| source | as written | input that shows it | evidently intended | confidence | as-written member | corrected member |
|---|---|---|---|---|---|---|
| factuality/__main__.py:263 | `transform_claims` reads `data["factuality"]["claims"]`, but `main()` passes the list `[claim.model_dump() for claim in checked_claims]`; the function also returns `(list(...),)`, a one-element tuple | any run with output format `json`: subscripting a list with `"factuality"` raises `TypeError` | group the list it is given and return the list of groups | high, not executed | `Cli.TransformClaimsAsWritten`, shown by `Cli.CallSiteAlwaysRaises` | `Cli.TransformClaims` |
