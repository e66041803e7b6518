/**
  Model of factuality/fact_check/fact_check.py: the records a claim check
  produces, the chunker `split_with_overlap`, and `check_claim`, which walks
  the ranked search results of one claim under a budget, with same-site
  deduplication and a fallback record.

  The language-model judgment of one chunk is the parameter `judge`: it
  returns `None` where the source takes its exception path (the call failed,
  timed out or gave no parsed payload). `urlparse(url)[1]` is the parameter
  `host`.
 */
module FactCheck {
  import opened Optional

  // ---------------------------------------------------------------------
  // Data model
  // ---------------------------------------------------------------------

  /** `ResultType`: the three outcomes a judgment can have. */
  datatype ResultType = Verified | Inconclusive | Rejected

  /** `Result`: what the judgment of one chunk returns. */
  datatype Result = Result(result: ResultType, sourceQuote: Option<string>)

  /** `Claim` (from the claim splitter): one extracted claim. */
  datatype Claim = Claim(claim: string, reference: Option<string>, verificationQuery: string)

  /** `ClaimChecked`: a claim extended with one recorded outcome. */
  datatype ClaimChecked = ClaimChecked(
    claim: string,
    reference: Option<string>,
    verificationQuery: string,
    result: ResultType,
    sourceReference: Option<string>,
    sourceQuote: Option<string>)

  /** One search result: the page's URL and its extracted text. */
  datatype SearchResult = SearchResult(url: string, text: string)

  /** The judgment capability: claim text and chunk to an optional payload. */
  type Judge = (string, string) -> Option<Result>

  /** The network location of a URL, `urlparse(url)[1]`. */
  type HostOf = string -> string

  function Min(a: int, b: int): (m: int) { if a <= b then a else b }

  function Max(a: int, b: int): (m: int) { if a <= b then b else a }

  // ---------------------------------------------------------------------
  // split_with_overlap
  // ---------------------------------------------------------------------

  /** The chunks `split_with_overlap` still emits once its loop is at offset `start`. */
  function SplitFrom(text: string, chunkSize: nat, overlap: int, start: nat): (chunks: seq<string>)
    requires overlap < chunkSize || |text| < start + chunkSize
    decreases |text| - start
  {
    if start + chunkSize <= |text| then
      [text[start..start + chunkSize]] + SplitFrom(text, chunkSize, overlap, start + chunkSize - overlap)
    else if start < |text| then
      [text[start..]]
    else
      []
  }

  /** The chunks of `text`: windows of `chunkSize` characters whose starts are
      `chunkSize - overlap` apart, then the remainder, if any. */
  function Split(text: string, chunkSize: nat, overlap: int): (chunks: seq<string>)
    requires overlap < chunkSize || |text| < chunkSize
  {
    SplitFrom(text, chunkSize, overlap, 0)
  }

  /** `split_with_overlap(text, chunk_size, overlap)`. The source never checks
      that the offset advances; the loop terminates exactly when
      `chunk_size > overlap` or no full window fits, so that is required here. */
  method SplitWithOverlap(text: string, chunkSize: nat, overlap: int) returns (chunks: seq<string>)
    requires overlap < chunkSize || |text| < chunkSize
    ensures chunks == Split(text, chunkSize, overlap)
  {
    chunks := [];
    var start: nat := 0;
    while start + chunkSize <= |text|
      invariant chunks + SplitFrom(text, chunkSize, overlap, start) == Split(text, chunkSize, overlap)
      decreases |text| - start
    {
      var end := start + chunkSize;
      chunks := chunks + [text[start..end]];
      start := start + chunkSize - overlap;
    }
    if start < |text| {
      chunks := chunks + [text[start..]];
    }
  }

  /** Without `chunk_size > overlap` the offset never moves forward: once the
      first window fits, every later offset fits as well, so the loop runs forever. */
  lemma {:induction false} NoProgressWithoutStep(textLength: nat, chunkSize: nat, overlap: int, k: nat)
    requires chunkSize <= overlap
    requires chunkSize <= textLength
    ensures k * (chunkSize - overlap) + chunkSize <= textLength
  {
    if k > 0 {
      NoProgressWithoutStep(textLength, chunkSize, overlap, k - 1);
      assert k * (chunkSize - overlap) == (k - 1) * (chunkSize - overlap) + (chunkSize - overlap);
    }
  }

  /** Chunk `i` of the tail starting at `start` begins at `start + i * step`
      and runs for `chunkSize` characters or to the end of the text; every
      chunk but the last is a full window; with a non-negative overlap the
      last chunk ends exactly at the end of the text. */
  lemma {:induction false} SplitFromChunk(text: string, chunkSize: nat, overlap: int, start: nat, i: nat)
    requires overlap < chunkSize
    requires i < |SplitFrom(text, chunkSize, overlap, start)|
    ensures start + i * (chunkSize - overlap) <= |text|
    ensures SplitFrom(text, chunkSize, overlap, start)[i]
         == text[start + i * (chunkSize - overlap) .. Min(start + i * (chunkSize - overlap) + chunkSize, |text|)]
    ensures i + 1 < |SplitFrom(text, chunkSize, overlap, start)| ==>
              start + i * (chunkSize - overlap) + chunkSize <= |text|
    ensures 0 <= overlap && i + 1 == |SplitFrom(text, chunkSize, overlap, start)| ==>
              |text| <= start + i * (chunkSize - overlap) + chunkSize
    decreases i
  {
    var step := chunkSize - overlap;
    if i > 0 {
      assert start + chunkSize <= |text|;
      SplitFromChunk(text, chunkSize, overlap, start + step, i - 1);
      assert start + step + (i - 1) * step == start + i * step;
    }
  }

  /** Chunk `i` of the whole text starts at offset `i * (chunkSize - overlap)`
      and runs for `chunkSize` characters or to the end of the text, so no
      chunk is longer than `chunkSize`, and every chunk before the last is a
      full window of exactly `chunkSize` characters. */
  lemma ChunkAt(text: string, chunkSize: nat, overlap: int, i: nat)
    requires overlap < chunkSize
    requires i < |Split(text, chunkSize, overlap)|
    ensures i * (chunkSize - overlap) <= |text|
    ensures Split(text, chunkSize, overlap)[i]
         == text[i * (chunkSize - overlap) .. Min(i * (chunkSize - overlap) + chunkSize, |text|)]
    ensures |Split(text, chunkSize, overlap)[i]| <= chunkSize
    ensures i + 1 < |Split(text, chunkSize, overlap)| ==> |Split(text, chunkSize, overlap)[i]| == chunkSize
  {
    SplitFromChunk(text, chunkSize, overlap, 0, i);
  }

  /** Empty text has no chunks (for a positive window; a window of 0 yields
      the one empty chunk); a non-empty text shorter than one window is its
      own only chunk. */
  lemma SplitEdgeCases(text: string, chunkSize: nat, overlap: int)
    requires overlap < chunkSize || |text| < chunkSize
    ensures |text| == 0 && chunkSize > 0 ==> Split(text, chunkSize, overlap) == []
    ensures |text| == 0 && chunkSize == 0 ==> Split(text, chunkSize, overlap) == [""]
    ensures 0 < |text| < chunkSize ==> Split(text, chunkSize, overlap) == [text]
  {
  }

  /** With `overlap >= 0` a non-empty text always has chunks, and the last one
      is a suffix of the text that ends at `len(text)`: no gap is left at the end. */
  lemma LastChunkReachesEnd(text: string, chunkSize: nat, overlap: int)
    requires 0 <= overlap && (overlap < chunkSize || |text| < chunkSize)
    requires |text| > 0
    ensures |Split(text, chunkSize, overlap)| > 0
    ensures var cs := Split(text, chunkSize, overlap);
            |cs[|cs| - 1]| <= |text| && cs[|cs| - 1] == text[|text| - |cs[|cs| - 1]|..]
  {
    var cs := Split(text, chunkSize, overlap);
    if chunkSize <= overlap {
      assert cs == [text[0..]];
    } else {
      assert |cs| > 0;
      SplitFromChunk(text, chunkSize, overlap, 0, |cs| - 1);
    }
  }

  /** With a positive overlap and at least one full window, the trailing
      remainder `text[start:]` is always emitted after the last window: the
      output ends with a chunk shorter than `chunkSize` that still holds at
      least `overlap` characters. */
  lemma {:induction false} TrailingChunkFrom(text: string, chunkSize: nat, overlap: int, start: nat)
    requires 0 < overlap < chunkSize
    requires start + chunkSize <= |text|
    ensures var cs := SplitFrom(text, chunkSize, overlap, start);
            |cs| >= 2 && overlap <= |cs[|cs| - 1]| < chunkSize
    decreases |text| - start
  {
    var step := chunkSize - overlap;
    if start + step + chunkSize <= |text| {
      TrailingChunkFrom(text, chunkSize, overlap, start + step);
    } else {
      assert SplitFrom(text, chunkSize, overlap, start + step) == [text[start + step..]];
    }
  }

  /** `TrailingChunkFrom` from offset 0: the trailing chunk always follows when
      `overlap > 0` and `len(text) >= chunkSize`. */
  lemma TrailingChunkEmitted(text: string, chunkSize: nat, overlap: int)
    requires 0 < overlap < chunkSize
    requires chunkSize <= |text|
    ensures var cs := Split(text, chunkSize, overlap);
            |cs| >= 2 && overlap <= |cs[|cs| - 1]| < chunkSize
  {
    TrailingChunkFrom(text, chunkSize, overlap, 0);
  }

  /** The concrete case `("abcdefgh", 5, 2)`: the loop emits the windows at
      offsets 0 and 3, and then the remainder at offset 6. */
  lemma SplitExample()
    ensures Split("abcdefgh", 5, 2) == ["abcde", "defgh", "gh"]
  {
    var t := "abcdefgh";
    assert t[6..] == "gh";
    assert SplitFrom(t, 5, 2, 6) == ["gh"];
    assert t[3..8] == "defgh";
    assert SplitFrom(t, 5, 2, 3) == [t[3..8]] + SplitFrom(t, 5, 2, 6);
    assert t[0..5] == "abcde";
    assert SplitFrom(t, 5, 2, 0) == [t[0..5]] + SplitFrom(t, 5, 2, 3);
  }

  /** Glue the chunks back together: from every chunk but the last keep the
      `step` characters before the next chunk begins, then the last chunk whole. */
  function Reassemble(chunks: seq<string>, step: nat): (text: string)
    requires forall i :: 0 <= i < |chunks| - 1 ==> step <= |chunks[i]|
  {
    if |chunks| == 0 then ""
    else if |chunks| == 1 then chunks[0]
    else chunks[0][..step] + Reassemble(chunks[1..], step)
  }

  /** The tail of chunks from `start` reassembles to `text[start:]`. */
  lemma {:induction false} ReassembleFrom(text: string, chunkSize: nat, overlap: int, start: nat)
    requires 0 <= overlap < chunkSize
    requires start <= |text|
    ensures var cs := SplitFrom(text, chunkSize, overlap, start);
            && (forall i :: 0 <= i < |cs| - 1 ==> chunkSize - overlap <= |cs[i]|)
            && Reassemble(cs, chunkSize - overlap) == text[start..]
    decreases |text| - start
  {
    var step := chunkSize - overlap;
    var cs := SplitFrom(text, chunkSize, overlap, start);
    if start + chunkSize <= |text| {
      var rest := SplitFrom(text, chunkSize, overlap, start + step);
      assert cs == [text[start..start + chunkSize]] + rest;
      if rest == [] {
        assert start + chunkSize == |text|;
      } else {
        ReassembleFrom(text, chunkSize, overlap, start + step);
        assert cs[1..] == rest;
        assert text[start..start + chunkSize][..step] == text[start..start + step];
        assert text[start..start + step] + text[start + step..] == text[start..];
      }
    }
  }

  /** Coverage: with `0 <= overlap < chunkSize` the chunks cover the whole
      text with no gap, and keeping from each chunk but the last only the
      part before its successor begins gives back the text exactly. */
  lemma ChunksReassemble(text: string, chunkSize: nat, overlap: int)
    requires 0 <= overlap < chunkSize
    ensures var cs := Split(text, chunkSize, overlap);
            && (forall i :: 0 <= i < |cs| - 1 ==> chunkSize - overlap <= |cs[i]|)
            && Reassemble(cs, chunkSize - overlap) == text
  {
    ReassembleFrom(text, chunkSize, overlap, 0);
  }

  // ---------------------------------------------------------------------
  // check_claim
  // ---------------------------------------------------------------------

  /** The parameters of `check_claim` that steer the walk over the sources:
      `validation_checks_per_claim`, `same_site_allowed`,
      `search_extract_article_length` and `search_extract_article_overlap`. */
  datatype Settings = Settings(
    validationChecksPerClaim: int,
    sameSiteAllowed: bool,
    articleLength: nat,
    articleOverlap: int)

  /** `split_with_overlap(text, length, overlap)` terminates: the offset
      advances, or the loop is never entered (`NoProgressWithoutStep` shows
      the loop runs forever otherwise). */
  predicate Chunkable(settings: Settings, text: string)
  {
    settings.articleOverlap < settings.articleLength || |text| < settings.articleLength
  }

  /** The chunker terminates on the text of every source. */
  predicate Terminates(settings: Settings, sources: seq<SearchResult>)
  {
    forall i :: 0 <= i < |sources| ==> Chunkable(settings, sources[i].text)
  }

  /** The state `check_claim` updates: the lists `claim_checks` and `sources_used`. */
  datatype Progress = Progress(claimChecks: seq<ClaimChecked>, sourcesUsed: seq<string>)

  /** The record appended for a chunk whose judgment returned `payload`. */
  function RecordFor(claim: Claim, url: string, payload: Result): (record: ClaimChecked)
  {
    match payload.result
    case Verified | Rejected =>
      ClaimChecked(claim.claim, claim.reference, claim.verificationQuery, payload.result, Some(url), payload.sourceQuote)
    case Inconclusive =>
      ClaimChecked(claim.claim, claim.reference, claim.verificationQuery, Inconclusive, Some(url), None)
  }

  /** The inner loop over the chunks of one source: the first chunk whose
      judgment does not fail decides the record; `None` if every judgment failed. */
  function JudgeChunks(claim: Claim, url: string, chunks: seq<string>, judge: Judge): (record: Option<ClaimChecked>)
  {
    if chunks == [] then None
    else match judge(claim.claim, chunks[0])
      case None => JudgeChunks(claim, url, chunks[1..], judge)
      case Some(payload) => Some(RecordFor(claim, url, payload))
  }

  /** The record one source contributes, if any. */
  function JudgeSource(claim: Claim, source: SearchResult, settings: Settings, judge: Judge): (record: Option<ClaimChecked>)
    requires Chunkable(settings, source.text)
  {
    JudgeChunks(claim, source.url, Split(source.text, settings.articleLength, settings.articleOverlap), judge)
  }

  /** The outer loop of `check_claim` terminates from the state `p` on: every
      source it reaches (not skipped as a used host, budget not yet met) is
      `Chunkable`. Sources after the budget `break` and skipped sources are
      never split, so nothing is asked of them. */
  ghost predicate WalkTerminates(claim: Claim, sources: seq<SearchResult>, settings: Settings, judge: Judge, host: HostOf, p: Progress)
    decreases |sources|
  {
    if sources == [] then true
    else if !settings.sameSiteAllowed && host(sources[0].url) in p.sourcesUsed then
      WalkTerminates(claim, sources[1..], settings, judge, host, p)
    else if settings.validationChecksPerClaim <= |p.claimChecks| then true
    else if !Chunkable(settings, sources[0].text) then false
    else match JudgeSource(claim, sources[0], settings, judge)
      case None => WalkTerminates(claim, sources[1..], settings, judge, host, p)
      case Some(r) =>
        WalkTerminates(claim, sources[1..], settings, judge, host,
                       Progress(p.claimChecks + [r], p.sourcesUsed + [host(sources[0].url)]))
  }

  /** The outer loop over the sources, from the state `p` on. */
  function Walk(claim: Claim, sources: seq<SearchResult>, settings: Settings, judge: Judge, host: HostOf, p: Progress): (q: Progress)
    requires WalkTerminates(claim, sources, settings, judge, host, p)
    decreases |sources|
  {
    if sources == [] then p
    else if !settings.sameSiteAllowed && host(sources[0].url) in p.sourcesUsed then
      Walk(claim, sources[1..], settings, judge, host, p)
    else if settings.validationChecksPerClaim <= |p.claimChecks| then p
    else match JudgeSource(claim, sources[0], settings, judge)
      case None => Walk(claim, sources[1..], settings, judge, host, p)
      case Some(r) =>
        Walk(claim, sources[1..], settings, judge, host,
             Progress(p.claimChecks + [r], p.sourcesUsed + [host(sources[0].url)]))
  }

  /** The synthetic record returned when no source produced one. */
  function Fallback(claim: Claim): (record: ClaimChecked)
  {
    ClaimChecked(claim.claim, claim.reference, claim.verificationQuery, Inconclusive, None, None)
  }

  /** What `check_claim` returns. */
  function ClaimChecks(claim: Claim, sources: seq<SearchResult>, settings: Settings, judge: Judge, host: HostOf): (checks: seq<ClaimChecked>)
    requires WalkTerminates(claim, sources, settings, judge, host, Progress([], []))
  {
    var p := Walk(claim, sources, settings, judge, host, Progress([], []));
    if |p.claimChecks| > 0 then p.claimChecks else [Fallback(claim)]
  }

  /** `check_claim(claim, sources, ...)`, with the judgment and `urlparse`
      passed in as `judge` and `host`. */
  method CheckClaim(claim: Claim, sources: seq<SearchResult>, settings: Settings, judge: Judge, host: HostOf)
    returns (checks: seq<ClaimChecked>)
    requires WalkTerminates(claim, sources, settings, judge, host, Progress([], []))
    ensures checks == ClaimChecks(claim, sources, settings, judge, host)
  {
    var claimChecks: seq<ClaimChecked> := [];
    var sourcesUsed: seq<string> := [];
    ghost var outcome := Walk(claim, sources, settings, judge, host, Progress([], []));
    var i := 0;
    while i < |sources|
      invariant 0 <= i <= |sources|
      invariant WalkTerminates(claim, sources[i..], settings, judge, host, Progress(claimChecks, sourcesUsed))
      invariant Walk(claim, sources[i..], settings, judge, host, Progress(claimChecks, sourcesUsed)) == outcome
    {
      var source := sources[i];
      assert sources[i..][0] == source && sources[i..][1..] == sources[i + 1..];
      if !settings.sameSiteAllowed && host(source.url) in sourcesUsed {
        i := i + 1;
        continue;
      }
      if settings.validationChecksPerClaim <= |claimChecks| {
        assert Progress(claimChecks, sourcesUsed) == outcome;
        break;
      }
      var chunks := SplitWithOverlap(source.text, settings.articleLength, settings.articleOverlap);
      ghost var verdict := JudgeChunks(claim, source.url, chunks, judge);
      ghost var checks0, used0 := claimChecks, sourcesUsed;
      var j := 0;
      while j < |chunks|
        invariant 0 <= j <= |chunks|
        invariant JudgeChunks(claim, source.url, chunks[j..], judge) == verdict
        invariant claimChecks == checks0 && sourcesUsed == used0
      {
        assert chunks[j..][0] == chunks[j] && chunks[j..][1..] == chunks[j + 1..];
        var payload := judge(claim.claim, chunks[j]);
        if payload.Some? {
          match payload.value.result
          case Verified | Rejected =>
            claimChecks := claimChecks + [ClaimChecked(claim.claim, claim.reference, claim.verificationQuery,
                                                       payload.value.result, Some(source.url), payload.value.sourceQuote)];
            sourcesUsed := sourcesUsed + [host(source.url)];
            break;
          case Inconclusive =>
            claimChecks := claimChecks + [ClaimChecked(claim.claim, claim.reference, claim.verificationQuery,
                                                       Inconclusive, Some(source.url), None)];
            sourcesUsed := sourcesUsed + [host(source.url)];
            break;
        }
        // the exception path: the judgment failed, try the next chunk
        j := j + 1;
      }
      i := i + 1;
    }
    if |claimChecks| > 0 {
      checks := claimChecks;
    } else {
      checks := [Fallback(claim)];
    }
  }

  // ---------------------------------------------------------------------
  // Properties of check_claim
  // ---------------------------------------------------------------------

  /** Within one source the first chunk whose judgment does not fail decides
      the record, and the chunks after it play no part; there is no record
      exactly when every judgment of the source's chunks failed. */
  lemma {:induction false} FirstAnsweredChunk(claim: Claim, url: string, chunks: seq<string>, judge: Judge) returns (k: nat)
    ensures JudgeChunks(claim, url, chunks, judge).None? <==>
            forall j :: 0 <= j < |chunks| ==> judge(claim.claim, chunks[j]).None?
    ensures JudgeChunks(claim, url, chunks, judge).Some? ==>
              && k < |chunks|
              && (forall j :: 0 <= j < k ==> judge(claim.claim, chunks[j]).None?)
              && judge(claim.claim, chunks[k]).Some?
              && JudgeChunks(claim, url, chunks, judge) == Some(RecordFor(claim, url, judge(claim.claim, chunks[k]).value))
              && JudgeChunks(claim, url, chunks[..k + 1], judge) == JudgeChunks(claim, url, chunks, judge)
  {
    if chunks == [] {
      k := 0;
    } else if judge(claim.claim, chunks[0]).Some? {
      k := 0;
      assert chunks[..1][0] == chunks[0];
    } else {
      var k' := FirstAnsweredChunk(claim, url, chunks[1..], judge);
      k := k' + 1;
      forall j | 0 <= j < |chunks| && judge(claim.claim, chunks[j]).Some? ensures j >= 1 {
      }
      if JudgeChunks(claim, url, chunks, judge).Some? {
        assert chunks[..k + 1][1..] == chunks[1..][..k' + 1];
        forall j | 0 <= j < k ensures judge(claim.claim, chunks[j]).None? {
          if j > 0 { assert chunks[j] == chunks[1..][j - 1]; }
        }
      }
    }
  }

  /** The record made from a judgment copies the claim, points at the
      source's URL, keeps the judgment's outcome, and carries a quote only
      for a verified or rejected outcome, namely the judge's own, which may be `None`. */
  predicate MadeFrom(claim: Claim, r: ClaimChecked)
  {
    && r.claim == claim.claim
    && r.reference == claim.reference
    && r.verificationQuery == claim.verificationQuery
    && (r.result == Inconclusive ==> r.sourceQuote.None?)
  }

  /** Every record a source produces is made from the claim and carries that source's URL. */
  lemma JudgedRecord(claim: Claim, source: SearchResult, settings: Settings, judge: Judge)
    requires Chunkable(settings, source.text)
    requires JudgeSource(claim, source, settings, judge).Some?
    ensures MadeFrom(claim, JudgeSource(claim, source, settings, judge).value)
    ensures JudgeSource(claim, source, settings, judge).value.sourceReference == Some(source.url)
  {
    var chunks := Split(source.text, settings.articleLength, settings.articleOverlap);
    var k := FirstAnsweredChunk(claim, source.url, chunks, judge);
  }

  /** Once the budget is used up no later source is split or adds anything. */
  lemma {:induction false} BudgetReachedStops(claim: Claim, sources: seq<SearchResult>, settings: Settings, judge: Judge, host: HostOf, p: Progress)
    requires settings.validationChecksPerClaim <= |p.claimChecks|
    ensures WalkTerminates(claim, sources, settings, judge, host, p)
    ensures Walk(claim, sources, settings, judge, host, p) == p
    decreases |sources|
  {
    if sources != [] {
      BudgetReachedStops(claim, sources[1..], settings, judge, host, p);
    }
  }

  /** A source whose judgments all failed is transparent: it neither records
      a result nor marks its host, so it cannot block later sources on that host. */
  lemma FailedSourceIsTransparent(claim: Claim, source: SearchResult, rest: seq<SearchResult>, settings: Settings, judge: Judge, host: HostOf, p: Progress)
    requires Chunkable(settings, source.text)
    requires JudgeSource(claim, source, settings, judge).None?
    requires WalkTerminates(claim, rest, settings, judge, host, p)
    ensures WalkTerminates(claim, [source] + rest, settings, judge, host, p)
    ensures Walk(claim, [source] + rest, settings, judge, host, p) == Walk(claim, rest, settings, judge, host, p)
  {
    assert ([source] + rest)[1..] == rest;
    if settings.validationChecksPerClaim <= |p.claimChecks| {
      BudgetReachedStops(claim, rest, settings, judge, host, p);
    }
  }

  /** The walk only appends: the earlier records stay, each source adds at
      most one record, and the budget check before each source keeps the
      count at or below the budget (or where it started). */
  lemma {:induction false} WalkBounds(claim: Claim, sources: seq<SearchResult>, settings: Settings, judge: Judge, host: HostOf, p: Progress)
    requires WalkTerminates(claim, sources, settings, judge, host, p)
    ensures var q := Walk(claim, sources, settings, judge, host, p);
            && |p.claimChecks| <= |q.claimChecks| <= |p.claimChecks| + |sources|
            && q.claimChecks[..|p.claimChecks|] == p.claimChecks
            && |q.claimChecks| <= Max(settings.validationChecksPerClaim, |p.claimChecks|)
    decreases |sources|
  {
    if sources != [] {
      var rest := sources[1..];
      if !settings.sameSiteAllowed && host(sources[0].url) in p.sourcesUsed {
        WalkBounds(claim, rest, settings, judge, host, p);
      } else if settings.validationChecksPerClaim <= |p.claimChecks| {
      } else {
        match JudgeSource(claim, sources[0], settings, judge)
        case None =>
          WalkBounds(claim, rest, settings, judge, host, p);
        case Some(r) =>
          var p' := Progress(p.claimChecks + [r], p.sourcesUsed + [host(sources[0].url)]);
          WalkBounds(claim, rest, settings, judge, host, p');
          var q := Walk(claim, rest, settings, judge, host, p');
          assert q.claimChecks[..|p.claimChecks|] == q.claimChecks[..|p'.claimChecks|][..|p.claimChecks|];
      }
    }
  }

  /** `sources_used` mirrors `claim_checks`: entry `k` is the host of record
      `k`'s source. A host is marked as used exactly when a record from it is appended. */
  ghost predicate Tracked(p: Progress, host: HostOf)
  {
    && |p.sourcesUsed| == |p.claimChecks|
    && forall k :: 0 <= k < |p.claimChecks| ==>
         p.claimChecks[k].sourceReference.Some? && host(p.claimChecks[k].sourceReference.value) == p.sourcesUsed[k]
  }

  /** No element appears twice. */
  ghost predicate Distinct<T>(s: seq<T>)
  {
    forall a, b :: 0 <= a < b < |s| ==> s[a] != s[b]
  }

  /** The walk keeps `Tracked`, keeps every record made from the claim, and,
      when the same site is not allowed twice, keeps the used hosts distinct. */
  lemma {:induction false} WalkInvariant(claim: Claim, sources: seq<SearchResult>, settings: Settings, judge: Judge, host: HostOf, p: Progress)
    requires WalkTerminates(claim, sources, settings, judge, host, p)
    requires Tracked(p, host)
    requires forall k :: 0 <= k < |p.claimChecks| ==> MadeFrom(claim, p.claimChecks[k])
    requires !settings.sameSiteAllowed ==> Distinct(p.sourcesUsed)
    ensures var q := Walk(claim, sources, settings, judge, host, p);
            && Tracked(q, host)
            && (forall k :: 0 <= k < |q.claimChecks| ==> MadeFrom(claim, q.claimChecks[k]))
            && (!settings.sameSiteAllowed ==> Distinct(q.sourcesUsed))
    decreases |sources|
  {
    if sources != [] {
      var rest := sources[1..];
      if !settings.sameSiteAllowed && host(sources[0].url) in p.sourcesUsed {
        WalkInvariant(claim, rest, settings, judge, host, p);
      } else if settings.validationChecksPerClaim <= |p.claimChecks| {
      } else {
        match JudgeSource(claim, sources[0], settings, judge)
        case None =>
          WalkInvariant(claim, rest, settings, judge, host, p);
        case Some(r) =>
          JudgedRecord(claim, sources[0], settings, judge);
          var p' := Progress(p.claimChecks + [r], p.sourcesUsed + [host(sources[0].url)]);
          assert Tracked(p', host);
          WalkInvariant(claim, rest, settings, judge, host, p');
      }
    }
  }

  /** The records appear in source order: record `k` is exactly the record
      that judging source `idx[k]` produces, and `idx` is strictly increasing. */
  lemma {:induction false} WalkOrigins(claim: Claim, sources: seq<SearchResult>, settings: Settings, judge: Judge, host: HostOf, p: Progress)
    returns (idx: seq<nat>)
    requires WalkTerminates(claim, sources, settings, judge, host, p)
    ensures var q := Walk(claim, sources, settings, judge, host, p);
            && |q.claimChecks| == |p.claimChecks| + |idx|
            && q.claimChecks[..|p.claimChecks|] == p.claimChecks
            && (forall k :: 0 <= k < |idx| ==>
                  && idx[k] < |sources| && Chunkable(settings, sources[idx[k]].text)
                  && JudgeSource(claim, sources[idx[k]], settings, judge) == Some(q.claimChecks[|p.claimChecks| + k]))
            && (forall a, b :: 0 <= a < b < |idx| ==> idx[a] < idx[b])
    decreases |sources|
  {
    WalkBounds(claim, sources, settings, judge, host, p);
    if sources == [] {
      idx := [];
    } else {
      var rest := sources[1..];
      if !settings.sameSiteAllowed && host(sources[0].url) in p.sourcesUsed {
        var idx' := WalkOrigins(claim, rest, settings, judge, host, p);
        idx := seq(|idx'|, k requires 0 <= k < |idx'| => idx'[k] + 1);
      } else if settings.validationChecksPerClaim <= |p.claimChecks| {
        idx := [];
      } else {
        match JudgeSource(claim, sources[0], settings, judge)
        case None =>
          var idx' := WalkOrigins(claim, rest, settings, judge, host, p);
          idx := seq(|idx'|, k requires 0 <= k < |idx'| => idx'[k] + 1);
        case Some(r) =>
          var p' := Progress(p.claimChecks + [r], p.sourcesUsed + [host(sources[0].url)]);
          var idx' := WalkOrigins(claim, rest, settings, judge, host, p');
          var q := Walk(claim, rest, settings, judge, host, p');
          idx := [0] + seq(|idx'|, k requires 0 <= k < |idx'| => idx'[k] + 1);
          assert q.claimChecks[..|p.claimChecks|] == q.claimChecks[..|p'.claimChecks|][..|p.claimChecks|];
          assert q.claimChecks[|p.claimChecks|] == q.claimChecks[..|p'.claimChecks|][|p.claimChecks|];
      }
    }
  }

  /** Splitting every source's text safely is enough for the loop to terminate. */
  lemma {:induction false} TerminatesSuffices(claim: Claim, sources: seq<SearchResult>, settings: Settings, judge: Judge, host: HostOf, p: Progress)
    requires Terminates(settings, sources)
    ensures WalkTerminates(claim, sources, settings, judge, host, p)
    decreases |sources|
  {
    if sources != [] {
      var rest := sources[1..];
      assert Terminates(settings, rest) by {
        forall i | 0 <= i < |rest| ensures Chunkable(settings, rest[i].text) {
          assert rest[i] == sources[i + 1];
        }
      }
      TerminatesSuffices(claim, rest, settings, judge, host, p);
      assert Chunkable(settings, sources[0].text);
      match JudgeSource(claim, sources[0], settings, judge)
      case None =>
      case Some(r) =>
        TerminatesSuffices(claim, rest, settings, judge, host,
                           Progress(p.claimChecks + [r], p.sourcesUsed + [host(sources[0].url)]));
    }
  }

  /** It is not necessary: with a window of 5 and an overlap of 10, a short
      first source is split into one chunk, its record uses up the budget of
      one, and the long second source, on which the chunker would never stop,
      is never split. */
  lemma BudgetSparesUnsplittableSource(claim: Claim, host: HostOf)
    ensures !Terminates(Settings(1, true, 5, 10), [SearchResult("u", "ab"), SearchResult("v", "abcdefgh")])
    ensures WalkTerminates(claim, [SearchResult("u", "ab"), SearchResult("v", "abcdefgh")], Settings(1, true, 5, 10),
                           (c: string, x: string) => Some(Result(Inconclusive, None)), host, Progress([], []))
    ensures ClaimChecks(claim, [SearchResult("u", "ab"), SearchResult("v", "abcdefgh")], Settings(1, true, 5, 10),
                        (c: string, x: string) => Some(Result(Inconclusive, None)), host)
         == [ClaimChecked(claim.claim, claim.reference, claim.verificationQuery, Inconclusive, Some("u"), None)]
  {
    var sources := [SearchResult("u", "ab"), SearchResult("v", "abcdefgh")];
    var settings := Settings(1, true, 5, 10);
    var judge: Judge := (c: string, x: string) => Some(Result(Inconclusive, None));
    var r := ClaimChecked(claim.claim, claim.reference, claim.verificationQuery, Inconclusive, Some("u"), None);
    assert !Chunkable(settings, sources[1].text);
    assert Split("ab", 5, 10) == ["ab"];
    assert JudgeSource(claim, sources[0], settings, judge) == Some(r);
    assert sources[1..] == [sources[1]];
    BudgetReachedStops(claim, sources[1..], settings, judge, host, Progress([r], [host("u")]));
  }

  /** The walk is a fold over the sources: the state in which the loop
      reaches source `i` is the walk over the first `i` sources, and the rest
      of the walk starts from that state. */
  lemma {:induction false} WalkPrefix(claim: Claim, sources: seq<SearchResult>, settings: Settings, judge: Judge, host: HostOf, p: Progress, i: nat)
    requires i <= |sources|
    requires WalkTerminates(claim, sources, settings, judge, host, p)
    ensures WalkTerminates(claim, sources[..i], settings, judge, host, p)
    ensures WalkTerminates(claim, sources[i..], settings, judge, host, Walk(claim, sources[..i], settings, judge, host, p))
    ensures Walk(claim, sources, settings, judge, host, p)
         == Walk(claim, sources[i..], settings, judge, host, Walk(claim, sources[..i], settings, judge, host, p))
    decreases i
  {
    if i == 0 {
      assert sources[..0] == [] && sources[0..] == sources;
    } else {
      var rest := sources[1..];
      assert sources[..i][0] == sources[0] && sources[..i][1..] == rest[..i - 1];
      assert rest[i - 1..] == sources[i..];
      if !settings.sameSiteAllowed && host(sources[0].url) in p.sourcesUsed {
        WalkPrefix(claim, rest, settings, judge, host, p, i - 1);
      } else if settings.validationChecksPerClaim <= |p.claimChecks| {
        BudgetReachedStops(claim, sources[i..], settings, judge, host, p);
      } else {
        match JudgeSource(claim, sources[0], settings, judge)
        case None =>
          WalkPrefix(claim, rest, settings, judge, host, p, i - 1);
        case Some(r) =>
          WalkPrefix(claim, rest, settings, judge, host,
                     Progress(p.claimChecks + [r], p.sourcesUsed + [host(sources[0].url)]), i - 1);
      }
    }
  }

  /** No source that yields a record is passed over: if, in the state `q` in
      which the loop reaches source `i`, its host is not blocked and the
      budget is not met, the source is split, and the record it yields, if
      any, is the next record, number `len(q.claim_checks)`, of the result. */
  lemma ReachedSourceRecorded(claim: Claim, sources: seq<SearchResult>, settings: Settings, judge: Judge, host: HostOf, p: Progress, i: nat)
    requires i < |sources|
    requires WalkTerminates(claim, sources, settings, judge, host, p)
    ensures WalkTerminates(claim, sources[..i], settings, judge, host, p)
    ensures var q := Walk(claim, sources[..i], settings, judge, host, p);
            var w := Walk(claim, sources, settings, judge, host, p);
            (settings.sameSiteAllowed || host(sources[i].url) !in q.sourcesUsed) &&
            |q.claimChecks| < settings.validationChecksPerClaim ==>
              && Chunkable(settings, sources[i].text)
              && (JudgeSource(claim, sources[i], settings, judge).Some? ==>
                    && |q.claimChecks| < |w.claimChecks|
                    && w.claimChecks[|q.claimChecks|] == JudgeSource(claim, sources[i], settings, judge).value)
  {
    WalkPrefix(claim, sources, settings, judge, host, p, i);
    var q := Walk(claim, sources[..i], settings, judge, host, p);
    var tail := sources[i..];
    assert tail[0] == sources[i] && tail[1..] == sources[i + 1..];
    if (settings.sameSiteAllowed || host(sources[i].url) !in q.sourcesUsed) && |q.claimChecks| < settings.validationChecksPerClaim {
      match JudgeSource(claim, sources[i], settings, judge)
      case None =>
      case Some(r) =>
        var q' := Progress(q.claimChecks + [r], q.sourcesUsed + [host(sources[i].url)]);
        WalkBounds(claim, sources[i + 1..], settings, judge, host, q');
        var w := Walk(claim, sources[i + 1..], settings, judge, host, q');
        assert w.claimChecks[|q.claimChecks|] == w.claimChecks[..|q'.claimChecks|][|q.claimChecks|];
    }
  }

  /** The same for `check_claim` itself: a source the loop reaches, with its
      host not blocked and the budget not met, contributes the record it
      yields to the result, right after the records of the sources before it. */
  lemma AnsweredSourceInResult(claim: Claim, sources: seq<SearchResult>, settings: Settings, judge: Judge, host: HostOf, i: nat)
    requires i < |sources|
    requires WalkTerminates(claim, sources, settings, judge, host, Progress([], []))
    ensures WalkTerminates(claim, sources[..i], settings, judge, host, Progress([], []))
    ensures var q := Walk(claim, sources[..i], settings, judge, host, Progress([], []));
            var r := ClaimChecks(claim, sources, settings, judge, host);
            (settings.sameSiteAllowed || host(sources[i].url) !in q.sourcesUsed) &&
            |q.claimChecks| < settings.validationChecksPerClaim ==>
              && Chunkable(settings, sources[i].text)
              && (JudgeSource(claim, sources[i], settings, judge).Some? ==>
                    && |q.claimChecks| < |r|
                    && r[|q.claimChecks|] == JudgeSource(claim, sources[i], settings, judge).value)
  {
    ReachedSourceRecorded(claim, sources, settings, judge, host, Progress([], []), i);
  }

  /** In particular the first source is always split when the budget is
      positive, and a record it yields is the first record of the result. */
  lemma FirstSourceDecides(claim: Claim, sources: seq<SearchResult>, settings: Settings, judge: Judge, host: HostOf)
    requires sources != [] && 1 <= settings.validationChecksPerClaim
    requires WalkTerminates(claim, sources, settings, judge, host, Progress([], []))
    ensures Chunkable(settings, sources[0].text)
    ensures JudgeSource(claim, sources[0], settings, judge).Some? ==>
              ClaimChecks(claim, sources, settings, judge, host)[0] == JudgeSource(claim, sources[0], settings, judge).value
  {
    AnsweredSourceInResult(claim, sources, settings, judge, host, 0);
    assert sources[..0] == [];
  }

  /** `check_claim` always returns at least one record. The synthetic
      inconclusive record with no source and no quote is returned exactly
      when no source produced a record, and then it is the only one. */
  lemma NeverEmpty(claim: Claim, sources: seq<SearchResult>, settings: Settings, judge: Judge, host: HostOf)
    requires WalkTerminates(claim, sources, settings, judge, host, Progress([], []))
    ensures var r := ClaimChecks(claim, sources, settings, judge, host);
            && |r| >= 1
            && (r == [Fallback(claim)] <==> |Walk(claim, sources, settings, judge, host, Progress([], [])).claimChecks| == 0)
  {
    WalkInvariant(claim, sources, settings, judge, host, Progress([], []));
    var q := Walk(claim, sources, settings, judge, host, Progress([], []));
    if |q.claimChecks| > 0 {
      assert q.claimChecks[0].sourceReference.Some?;
      assert q.claimChecks[0] != Fallback(claim);
    }
  }

  /** The three ways to end with only the fallback record: no sources, a
      budget of 0 or less, or every judgment made on the sources' chunks
      erroring (by `FirstAnsweredChunk`, a source yields no record exactly then). */
  lemma FallbackCases(claim: Claim, sources: seq<SearchResult>, settings: Settings, judge: Judge, host: HostOf)
    requires WalkTerminates(claim, sources, settings, judge, host, Progress([], []))
    requires || sources == []
             || settings.validationChecksPerClaim <= 0
             || (forall i :: 0 <= i < |sources| && Chunkable(settings, sources[i].text) ==>
                   JudgeSource(claim, sources[i], settings, judge).None?)
    ensures ClaimChecks(claim, sources, settings, judge, host) == [Fallback(claim)]
    ensures Fallback(claim).result == Inconclusive && Fallback(claim).sourceReference.None? && Fallback(claim).sourceQuote.None?
  {
    if settings.validationChecksPerClaim <= 0 {
      BudgetReachedStops(claim, sources, settings, judge, host, Progress([], []));
    } else if sources != [] {
      AllFailuresRecordNothing(claim, sources, settings, judge, host, Progress([], []));
    }
  }

  /** When every judgment made on the chunks of these sources errored, so
      that no source yields a record, the walk records nothing. */
  lemma {:induction false} AllFailuresRecordNothing(claim: Claim, sources: seq<SearchResult>, settings: Settings, judge: Judge, host: HostOf, p: Progress)
    requires WalkTerminates(claim, sources, settings, judge, host, p)
    requires forall i :: 0 <= i < |sources| && Chunkable(settings, sources[i].text) ==>
               JudgeSource(claim, sources[i], settings, judge).None?
    ensures Walk(claim, sources, settings, judge, host, p) == p
    decreases |sources|
  {
    if sources != [] {
      var rest := sources[1..];
      assert forall i :: 0 <= i < |rest| ==> rest[i] == sources[i + 1];
      if !settings.sameSiteAllowed && host(sources[0].url) in p.sourcesUsed {
        AllFailuresRecordNothing(claim, rest, settings, judge, host, p);
      } else if settings.validationChecksPerClaim > |p.claimChecks| {
        assert JudgeSource(claim, sources[0], settings, judge).None?;
        AllFailuresRecordNothing(claim, rest, settings, judge, host, p);
      }
    }
  }

  /** Budget: the result never has more than `max(validation_checks_per_claim, 1)`
      records, nor more than one per source (or the one fallback record). */
  lemma Budget(claim: Claim, sources: seq<SearchResult>, settings: Settings, judge: Judge, host: HostOf)
    requires WalkTerminates(claim, sources, settings, judge, host, Progress([], []))
    ensures |ClaimChecks(claim, sources, settings, judge, host)| <= Max(settings.validationChecksPerClaim, 1)
    ensures |ClaimChecks(claim, sources, settings, judge, host)| <= Max(|sources|, 1)
  {
    WalkBounds(claim, sources, settings, judge, host, Progress([], []));
  }

  /** Deduplication: when the same site may not be used twice, no two records
      of the result share a host. */
  lemma SameSiteDeduplicated(claim: Claim, sources: seq<SearchResult>, settings: Settings, judge: Judge, host: HostOf)
    requires WalkTerminates(claim, sources, settings, judge, host, Progress([], []))
    requires !settings.sameSiteAllowed
    ensures var r := ClaimChecks(claim, sources, settings, judge, host);
            forall a, b :: 0 <= a < b < |r| ==>
              r[a].sourceReference.Some? && r[b].sourceReference.Some? &&
              host(r[a].sourceReference.value) != host(r[b].sourceReference.value)
  {
    WalkInvariant(claim, sources, settings, judge, host, Progress([], []));
  }

  /** Every record of the result copies `claim`, `reference` and
      `verification_query` from the claim, and an inconclusive record never
      carries a quote. */
  lemma RecordsCopyClaim(claim: Claim, sources: seq<SearchResult>, settings: Settings, judge: Judge, host: HostOf)
    requires WalkTerminates(claim, sources, settings, judge, host, Progress([], []))
    ensures forall r :: r in ClaimChecks(claim, sources, settings, judge, host) ==> MadeFrom(claim, r)
  {
    WalkInvariant(claim, sources, settings, judge, host, Progress([], []));
  }

  /** Source order: unless the result is the fallback, record `k` is what
      judging source `idx[k]` produces, with `idx` strictly increasing. */
  lemma SourceOrder(claim: Claim, sources: seq<SearchResult>, settings: Settings, judge: Judge, host: HostOf)
    returns (idx: seq<nat>)
    requires WalkTerminates(claim, sources, settings, judge, host, Progress([], []))
    ensures var r := ClaimChecks(claim, sources, settings, judge, host);
            || r == [Fallback(claim)]
            || (&& |idx| == |r|
                && (forall k :: 0 <= k < |r| ==>
                      && idx[k] < |sources| && Chunkable(settings, sources[idx[k]].text)
                      && JudgeSource(claim, sources[idx[k]], settings, judge) == Some(r[k]))
                && (forall a, b :: 0 <= a < b < |idx| ==> idx[a] < idx[b]))
  {
    idx := WalkOrigins(claim, sources, settings, judge, host, Progress([], []));
  }

  /** The quote rule is not enforced on the judge's answer: a verified
      outcome whose judge gave no quote is recorded without one. */
  lemma VerifiedWithoutQuote(claim: Claim, host: HostOf)
    ensures WalkTerminates(claim, [SearchResult("u", "x")], Settings(1, true, 5000, 500),
                           (c: string, x: string) => Some(Result(Verified, None)), host, Progress([], []))
    ensures ClaimChecks(claim, [SearchResult("u", "x")], Settings(1, true, 5000, 500),
                        (c: string, x: string) => Some(Result(Verified, None)), host)
         == [ClaimChecked(claim.claim, claim.reference, claim.verificationQuery, Verified, Some("u"), None)]
  {
    var judge: Judge := (c: string, x: string) => Some(Result(Verified, None));
    var settings := Settings(1, true, 5000, 500);
    assert Split("x", 5000, 500) == ["x"];
    assert JudgeSource(claim, SearchResult("u", "x"), settings, judge)
        == Some(ClaimChecked(claim.claim, claim.reference, claim.verificationQuery, Verified, Some("u"), None));
    BudgetReachedStops(claim, [], settings, judge, host,
      Progress([ClaimChecked(claim.claim, claim.reference, claim.verificationQuery, Verified, Some("u"), None)], [host("u")]));
  }

  /** The shipped defaults (article length 5000, overlap 500, one check per
      claim, same site allowed) meet the chunker's termination condition. */
  const DefaultSettings := Settings(1, true, 5000, 500)

  lemma DefaultSettingsValid()
    ensures forall text :: Chunkable(DefaultSettings, text)
  {
  }
}
