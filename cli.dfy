/**
  Model of the pure and data-shaping parts of factuality/__main__.py:
  `strtobool`, the file-name stem built from the statement, and
  `transform_claims`, which groups checked-claim records for the JSON output.
 */
module Cli {
  import opened Optional
  import opened FactCheck

  // ---------------------------------------------------------------------
  // strtobool
  // ---------------------------------------------------------------------

  /** The argument of `strtobool`: `str | bool`. */
  datatype Flag = Text(s: string) | Boolean(b: bool)

  /** ASCII lower-casing of one character. */
  function LowerChar(c: char): (l: char)
  {
    if 'A' <= c <= 'Z' then (c as int + 32) as char else c
  }

  /** `str.lower()`, on the ASCII letters. */
  function Lower(s: string): (r: string)
    ensures |r| == |s|
    ensures forall i :: 0 <= i < |s| ==> r[i] == LowerChar(s[i])
  {
    if s == [] then [] else [LowerChar(s[0])] + Lower(s[1..])
  }

  /** `strtobool(val)`. */
  function StrToBool(val: Flag): (truth: bool)
    ensures val.Text? && truth ==> 1 <= |val.s| <= 4
  {
    match val
    case Boolean(b) => b
    case Text(s) => Lower(s) in ["true", "1", "t"]
  }

  /** A string is read as true exactly when it is `1`, `t` or `true` in any
      mix of cases; a boolean is returned unchanged. */
  lemma StrToBoolSpellings(val: Flag)
    ensures val.Boolean? ==> StrToBool(val) == val.b
    ensures val.Text? ==>
              (StrToBool(val) <==>
                 || val.s == "1"
                 || val.s == "t" || val.s == "T"
                 || (&& |val.s| == 4
                     && val.s[0] in "tT" && val.s[1] in "rR" && val.s[2] in "uU" && val.s[3] in "eE"))
  {
    if val.Text? {
      var s := val.s;
      var l := Lower(s);
      if |s| == 4 && s[0] in "tT" && s[1] in "rR" && s[2] in "uU" && s[3] in "eE" {
        assert l == "true";
      }
      if |s| == 1 && (s == "t" || s == "T") {
        assert l == "t";
      }
      if s == "1" {
        assert l == "1";
      }
      if l == "true" {
        assert LowerChar(s[0]) == 't' && LowerChar(s[1]) == 'r' && LowerChar(s[2]) == 'u' && LowerChar(s[3]) == 'e';
      }
      if l == "t" {
        assert LowerChar(s[0]) == 't';
        assert s == [s[0]];
      }
      if l == "1" {
        assert LowerChar(s[0]) == '1';
        assert s == [s[0]];
      }
    }
  }

  /** Other strings, `yes` and the empty string among them, are false. */
  lemma StrToBoolExamples()
    ensures StrToBool(Text("True")) && StrToBool(Text("T")) && StrToBool(Text("1"))
    ensures !StrToBool(Text("yes")) && !StrToBool(Text("")) && !StrToBool(Text("0"))
  {
    assert Lower("True") == "true";
    assert Lower("T") == "t";
    assert Lower("1") == "1";
    assert Lower("yes") == "yes";
    assert Lower("0") == "0";
  }

  // ---------------------------------------------------------------------
  // The file-name stem: re.sub(r'[^\x00-\x7F]+', '', statement[:20].replace(' ', '_'))
  // ---------------------------------------------------------------------

  /** `s[:n]`. */
  function Take(s: string, n: nat): (head: string)
  {
    if |s| <= n then s else s[..n]
  }

  /** `s.replace(' ', '_')`. */
  function ReplaceSpaces(s: string): (r: string)
    ensures |r| == |s|
  {
    if s == [] then [] else [if s[0] == ' ' then '_' else s[0]] + ReplaceSpaces(s[1..])
  }

  predicate IsAscii(c: char) { c as int <= 0x7F }

  /** Deleting every run of characters outside `\x00-\x7F`. */
  function StripNonAscii(s: string): (r: string)
    ensures |r| <= |s|
  {
    if s == [] then []
    else if IsAscii(s[0]) then [s[0]] + StripNonAscii(s[1..])
    else StripNonAscii(s[1..])
  }

  /** The part of the output file name taken from the statement. */
  function FilenameStem(statement: string): (stem: string)
    ensures |stem| <= 20
  {
    StripNonAscii(ReplaceSpaces(Take(statement, 20)))
  }

  /** Replacing spaces changes each space to `_` and nothing else. */
  lemma {:induction false} ReplaceSpacesAt(s: string, i: nat)
    requires i < |s|
    ensures ReplaceSpaces(s)[i] == if s[i] == ' ' then '_' else s[i]
  {
    if i > 0 {
      ReplaceSpacesAt(s[1..], i - 1);
    }
  }

  /** Stripping never lengthens the text, leaves only ASCII characters taken
      from it, and leaves an all-ASCII text unchanged. */
  lemma {:induction false} StripNonAsciiProperties(s: string)
    ensures |StripNonAscii(s)| <= |s|
    ensures forall i :: 0 <= i < |StripNonAscii(s)| ==> IsAscii(StripNonAscii(s)[i])
    ensures forall c :: c in StripNonAscii(s) ==> c in s
    ensures (forall i :: 0 <= i < |s| ==> IsAscii(s[i])) ==> StripNonAscii(s) == s
  {
    if s != [] {
      StripNonAsciiProperties(s[1..]);
      var t := StripNonAscii(s[1..]);
      if IsAscii(s[0]) {
        assert StripNonAscii(s) == [s[0]] + t;
      }
      if forall i :: 0 <= i < |s| ==> IsAscii(s[i]) {
        assert forall i :: 0 <= i < |s[1..]| ==> IsAscii(s[1..][i]);
        assert s == [s[0]] + s[1..];
      }
    }
  }

  /** Stripping works character by character: it distributes over
      concatenation, and a single character is kept exactly when it is ASCII. */
  lemma {:induction false} StripNonAsciiFilters(a: string, b: string, c: char)
    ensures StripNonAscii(a + b) == StripNonAscii(a) + StripNonAscii(b)
    ensures StripNonAscii([c]) == if IsAscii(c) then [c] else []
  {
    if a == [] {
      assert a + b == b;
    } else {
      assert (a + b)[0] == a[0] && (a + b)[1..] == a[1..] + b;
      StripNonAsciiFilters(a[1..], b, c);
    }
  }

  /** Stripping keeps every ASCII character of `s` and nothing else, in
      order: the result is `s` at the increasing positions `idx`, and every
      position holding an ASCII character is among them. */
  lemma {:induction false} StripNonAsciiKeeps(s: string) returns (idx: seq<nat>)
    ensures |idx| == |StripNonAscii(s)|
    ensures forall k :: 0 <= k < |idx| ==> idx[k] < |s| && StripNonAscii(s)[k] == s[idx[k]]
    ensures forall a, b :: 0 <= a < b < |idx| ==> idx[a] < idx[b]
    ensures forall i :: 0 <= i < |s| && IsAscii(s[i]) ==> i in idx
    decreases |s|
  {
    if s == [] {
      idx := [];
    } else {
      var init, c := s[..|s| - 1], s[|s| - 1];
      assert s == init + [c];
      var prev := StripNonAsciiKeeps(init);
      StripNonAsciiFilters(init, [c], c);
      if IsAscii(c) {
        idx := prev + [|s| - 1];
      } else {
        idx := prev;
      }
      forall i | 0 <= i < |s| && IsAscii(s[i]) ensures i in idx {
        if i < |init| {
          assert init[i] == s[i];
          assert i in prev;
        }
      }
    }
  }

  /** The stem is exactly the ASCII characters among the statement's first
      20, in order, each space turned into `_`: position `k` of the stem is
      statement position `idx[k]`. */
  lemma FilenameStemCharacters(statement: string) returns (idx: seq<nat>)
    ensures |idx| == |FilenameStem(statement)|
    ensures forall k :: 0 <= k < |idx| ==>
              && idx[k] < Min(20, |statement|)
              && FilenameStem(statement)[k] == if statement[idx[k]] == ' ' then '_' else statement[idx[k]]
    ensures forall a, b :: 0 <= a < b < |idx| ==> idx[a] < idx[b]
    ensures forall i :: 0 <= i < Min(20, |statement|) && IsAscii(statement[i]) ==> i in idx
  {
    var head := Take(statement, 20);
    var replaced := ReplaceSpaces(head);
    forall i | 0 <= i < |replaced| ensures replaced[i] == if statement[i] == ' ' then '_' else statement[i] {
      ReplaceSpacesAt(head, i);
    }
    idx := StripNonAsciiKeeps(replaced);
  }

  /** The stem has at most 20 characters, all ASCII, none a space. For a
      statement whose first 20 characters are ASCII its length is
      `min(20, len(statement))` and each of its characters is the statement's,
      with a space turned into `_`. */
  lemma FilenameStemProperties(statement: string)
    ensures |FilenameStem(statement)| <= 20
    ensures forall i :: 0 <= i < |FilenameStem(statement)| ==> IsAscii(FilenameStem(statement)[i])
    ensures ' ' !in FilenameStem(statement)
    ensures (forall i :: 0 <= i < |Take(statement, 20)| ==> IsAscii(statement[i])) ==>
              && |FilenameStem(statement)| == Min(20, |statement|)
              && forall i :: 0 <= i < |FilenameStem(statement)| ==>
                   FilenameStem(statement)[i] == if statement[i] == ' ' then '_' else statement[i]
  {
    var head := Take(statement, 20);
    var replaced := ReplaceSpaces(head);
    StripNonAsciiProperties(replaced);
    forall i | 0 <= i < |replaced| ensures replaced[i] == if head[i] == ' ' then '_' else head[i] {
      ReplaceSpacesAt(head, i);
    }
    assert ' ' !in replaced;
    if forall i :: 0 <= i < |head| ==> IsAscii(statement[i]) {
      assert forall i :: 0 <= i < |head| ==> head[i] == statement[i];
    }
  }

  // ---------------------------------------------------------------------
  // transform_claims
  // ---------------------------------------------------------------------

  /** The grouping key `(claim["claim"], claim["verification_query"])`. */
  type Key = (string, string)

  /** One evidence entry: `result`, `source_reference`, `source_quote`. */
  datatype Evidence = Evidence(result: ResultType, sourceReference: Option<string>, sourceQuote: Option<string>)

  /** One group: `claim`, `reference`, `verification_query`, `evidence`. */
  datatype Entry = Entry(claim: string, reference: Option<string>, verificationQuery: string, evidence: seq<Evidence>)

  function KeyOf(c: ClaimChecked): (k: Key)
  {
    (c.claim, c.verificationQuery)
  }

  function EntryKey(e: Entry): (k: Key)
  {
    (e.claim, e.verificationQuery)
  }

  function EvidenceOf(c: ClaimChecked): (e: Evidence)
  {
    Evidence(c.result, c.sourceReference, c.sourceQuote)
  }

  /** The keys of `records` in order of first appearance: the insertion
      order of the `defaultdict`. */
  function KeysInOrder(records: seq<ClaimChecked>): (keys: seq<Key>)
  {
    if records == [] then []
    else
      var keys := KeysInOrder(records[..|records| - 1]);
      var k := KeyOf(records[|records| - 1]);
      if k in keys then keys else keys + [k]
  }

  /** The evidence of the records with key `k`, in input order. */
  function EvidenceFor(records: seq<ClaimChecked>, k: Key): (evidence: seq<Evidence>)
  {
    if records == [] then []
    else
      EvidenceFor(records[..|records| - 1], k)
      + (if KeyOf(records[|records| - 1]) == k then [EvidenceOf(records[|records| - 1])] else [])
  }

  /** The reference of the last record with key `k`. */
  function LastReference(records: seq<ClaimChecked>, k: Key): (reference: Option<string>)
  {
    if records == [] then None
    else if KeyOf(records[|records| - 1]) == k then records[|records| - 1].reference
    else LastReference(records[..|records| - 1], k)
  }

  function EntryFor(records: seq<ClaimChecked>, k: Key): (entry: Entry)
  {
    Entry(k.0, LastReference(records, k), k.1, EvidenceFor(records, k))
  }

  /** The groups in first-appearance order. */
  function Grouped(records: seq<ClaimChecked>): (groups: seq<Entry>)
  {
    var keys := KeysInOrder(records);
    seq(|keys|, j requires 0 <= j < |keys| => EntryFor(records, keys[j]))
  }

  /** The sum of the evidence-list lengths. */
  function TotalEvidence(entries: seq<Entry>): (total: nat)
  {
    if entries == [] then 0 else TotalEvidence(entries[..|entries| - 1]) + |entries[|entries| - 1].evidence|
  }

  /** The entry `claim_map[key]` hands out for a key not yet present. */
  const BlankEntry := Entry("", None, "", [])

  /** A key that has not appeared yet has no evidence. */
  lemma {:induction false} AbsentKeyHasNoEvidence(records: seq<ClaimChecked>, k: Key)
    requires k !in KeysInOrder(records)
    ensures EvidenceFor(records, k) == []
  {
    if records != [] {
      AbsentKeyHasNoEvidence(records[..|records| - 1], k);
    }
  }

  /** `transform_claims`, over the records it is evidently meant to receive:
      for each record, fetch (or create) its key's entry, overwrite `claim`,
      `reference` and `verification_query`, and append its evidence; then
      list the entries in insertion order. */
  method TransformClaims(records: seq<ClaimChecked>) returns (claims: seq<Entry>)
    ensures claims == Grouped(records)
  {
    var order: seq<Key> := [];
    var claimMap: map<Key, Entry> := map[];
    for i := 0 to |records|
      invariant order == KeysInOrder(records[..i])
      invariant forall k :: k in claimMap <==> k in order
      invariant forall k :: k in claimMap ==> claimMap[k] == EntryFor(records[..i], k)
    {
      var claim := records[i];
      var key := (claim.claim, claim.verificationQuery);
      assert records[..i + 1][..i] == records[..i];
      assert records[..i + 1][i] == claim;
      var entry := BlankEntry;
      if key in claimMap {
        entry := claimMap[key];
      } else {
        order := order + [key];
        AbsentKeyHasNoEvidence(records[..i], key);
      }
      entry := entry.(claim := claim.claim);
      entry := entry.(reference := claim.reference);
      entry := entry.(verificationQuery := claim.verificationQuery);
      entry := entry.(evidence := entry.evidence + [Evidence(claim.result, claim.sourceReference, claim.sourceQuote)]);
      claimMap := claimMap[key := entry];
    }
    assert records[..|records|] == records;
    claims := seq(|order|, j requires 0 <= j < |order| => claimMap[order[j]]);
  }

  // ---------------------------------------------------------------------
  // Properties of transform_claims
  // ---------------------------------------------------------------------

  /** The keys are distinct, and a key is listed exactly when some record has it. */
  lemma {:induction false} KeysDistinctAndComplete(records: seq<ClaimChecked>)
    ensures Distinct(KeysInOrder(records))
    ensures forall k :: k in KeysInOrder(records) <==> exists i :: 0 <= i < |records| && KeyOf(records[i]) == k
  {
    if records != [] {
      var init := records[..|records| - 1];
      KeysDistinctAndComplete(init);
      var keys := KeysInOrder(records);
      forall k ensures k in keys <==> exists i :: 0 <= i < |records| && KeyOf(records[i]) == k {
        if k in KeysInOrder(init) {
          var i :| 0 <= i < |init| && KeyOf(init[i]) == k;
          assert records[i] == init[i];
        }
        if exists i :: 0 <= i < |records| && KeyOf(records[i]) == k {
          var i :| 0 <= i < |records| && KeyOf(records[i]) == k;
          if i < |init| { assert init[i] == records[i]; }
        }
      }
    }
  }

  /** The keys of a prefix of the input are a prefix of the keys. */
  lemma {:induction false} KeysOfPrefix(records: seq<ClaimChecked>, n: nat)
    requires n <= |records|
    ensures |KeysInOrder(records[..n])| <= |KeysInOrder(records)|
    ensures KeysInOrder(records[..n]) == KeysInOrder(records)[..|KeysInOrder(records[..n])|]
  {
    if n == |records| {
      assert records[..n] == records;
    } else {
      var init := records[..|records| - 1];
      KeysOfPrefix(init, n);
      assert records[..n] == init[..n];
    }
  }

  /** Where the key of group `b` occurs, the key of every earlier group `a`
      has occurred before. */
  lemma EarlierKeyOccursFirst(records: seq<ClaimChecked>, a: nat, b: nat, i: nat)
    requires a < b < |KeysInOrder(records)|
    requires i < |records| && KeyOf(records[i]) == KeysInOrder(records)[b]
    ensures exists j :: 0 <= j < i && KeyOf(records[j]) == KeysInOrder(records)[a]
  {
    var keys := KeysInOrder(records);
    var before := KeysInOrder(records[..i]);
    var upTo := KeysInOrder(records[..i + 1]);
    assert records[..i + 1][..i] == records[..i];
    assert records[..i + 1][i] == records[i];
    assert upTo == if KeyOf(records[i]) in before then before else before + [KeyOf(records[i])];
    KeysOfPrefix(records, i);
    KeysOfPrefix(records, i + 1);
    KeysDistinctAndComplete(records);
    KeysDistinctAndComplete(records[..i]);
    if KeyOf(records[i]) in before {
      var m :| 0 <= m < |before| && before[m] == keys[b];
      assert keys[m] == keys[b];
      assert m == b;
    } else {
      assert keys[|before|] == keys[b];
      assert |before| == b;
    }
    assert keys[a] == before[a];
    assert before[a] in before;
    var j :| 0 <= j < |records[..i]| && KeyOf(records[..i][j]) == keys[a];
    assert records[..i][j] == records[j];
  }

  /** One group per distinct `(claim, verification_query)` key: no two groups
      share a key, every record's key has a group, and every group's key
      comes from some record; a differing query alone makes a separate group. */
  lemma OneEntryPerKey(records: seq<ClaimChecked>)
    ensures var g := Grouped(records);
            && (forall a, b :: 0 <= a < b < |g| ==> EntryKey(g[a]) != EntryKey(g[b]))
            && (forall i :: 0 <= i < |records| ==> exists a :: 0 <= a < |g| && EntryKey(g[a]) == KeyOf(records[i]))
            && (forall a :: 0 <= a < |g| ==> exists i :: 0 <= i < |records| && KeyOf(records[i]) == EntryKey(g[a]))
  {
    KeysDistinctAndComplete(records);
    var keys := KeysInOrder(records);
    var g := Grouped(records);
    assert forall a :: 0 <= a < |g| ==> EntryKey(g[a]) == keys[a];
    forall a | 0 <= a < |g| ensures exists i :: 0 <= i < |records| && KeyOf(records[i]) == EntryKey(g[a]) {
      assert keys[a] in keys;
    }
    forall i | 0 <= i < |records| ensures exists a :: 0 <= a < |g| && EntryKey(g[a]) == KeyOf(records[i]) {
      assert KeyOf(records[i]) in keys;
      var a :| 0 <= a < |keys| && keys[a] == KeyOf(records[i]);
      assert EntryKey(g[a]) == KeyOf(records[i]);
    }
  }

  /** The groups are in first-appearance order: wherever the key of a later
      group occurs in the input, the key of each earlier group has already occurred. */
  ghost predicate InFirstAppearanceOrder(records: seq<ClaimChecked>, g: seq<Entry>)
  {
    forall a, b, i :: 0 <= a < b < |g| && 0 <= i < |records| && KeyOf(records[i]) == EntryKey(g[b]) ==>
      exists j :: 0 <= j < i && KeyOf(records[j]) == EntryKey(g[a])
  }

  lemma EntriesInFirstAppearanceOrder(records: seq<ClaimChecked>)
    ensures InFirstAppearanceOrder(records, Grouped(records))
  {
    var g := Grouped(records);
    forall a, b, i | 0 <= a < b < |g| && 0 <= i < |records| && KeyOf(records[i]) == EntryKey(g[b])
      ensures exists j :: 0 <= j < i && KeyOf(records[j]) == EntryKey(g[a])
    {
      assert EntryKey(g[a]) == KeysInOrder(records)[a];
      assert EntryKey(g[b]) == KeysInOrder(records)[b];
      EarlierKeyOccursFirst(records, a, b, i);
    }
  }

  /** Adding one record to the input adds one evidence entry, to its key's group. */
  lemma {:induction false} EvidenceGrowsByOne(records: seq<ClaimChecked>, x: ClaimChecked, keys: seq<Key>)
    ensures var e := seq(|keys|, j requires 0 <= j < |keys| => EntryFor(records + [x], keys[j]));
            var d := seq(|keys|, j requires 0 <= j < |keys| => EntryFor(records, keys[j]));
            TotalEvidence(e) == TotalEvidence(d) + Count(keys, KeyOf(x))
    decreases |keys|
  {
    var e := seq(|keys|, j requires 0 <= j < |keys| => EntryFor(records + [x], keys[j]));
    var d := seq(|keys|, j requires 0 <= j < |keys| => EntryFor(records, keys[j]));
    if keys != [] {
      var init := keys[..|keys| - 1];
      EvidenceGrowsByOne(records, x, init);
      assert e[..|e| - 1] == seq(|init|, j requires 0 <= j < |init| => EntryFor(records + [x], init[j]));
      assert d[..|d| - 1] == seq(|init|, j requires 0 <= j < |init| => EntryFor(records, init[j]));
      assert (records + [x])[..|records|] == records;
      assert keys == init + [keys[|keys| - 1]];
    }
  }

  /** How often `k` occurs in `keys`. */
  function Count(keys: seq<Key>, k: Key): (n: nat)
  {
    if keys == [] then 0 else Count(keys[..|keys| - 1], k) + (if keys[|keys| - 1] == k then 1 else 0)
  }

  /** A key that is listed once is counted once. */
  lemma {:induction false} CountDistinct(keys: seq<Key>, k: Key)
    requires Distinct(keys)
    ensures Count(keys, k) == if k in keys then 1 else 0
  {
    if keys != [] {
      var init := keys[..|keys| - 1];
      CountDistinct(init, k);
      assert keys == init + [keys[|keys| - 1]];
    }
  }

  /** Every input record becomes exactly one evidence entry: the evidence
      lists of all groups together have as many entries as there are records. */
  lemma {:induction false} EvidenceAccountsForEveryRecord(records: seq<ClaimChecked>)
    ensures TotalEvidence(Grouped(records)) == |records|
  {
    if records != [] {
      var init := records[..|records| - 1];
      var x := records[|records| - 1];
      assert records == init + [x];
      EvidenceAccountsForEveryRecord(init);
      KeysDistinctAndComplete(init);
      KeysDistinctAndComplete(records);
      var keys := KeysInOrder(init);
      var keys' := KeysInOrder(records);
      EvidenceGrowsByOne(init, x, keys');
      CountDistinct(keys', KeyOf(x));
      if KeyOf(x) in keys {
        assert keys' == keys;
      } else {
        assert keys' == keys + [KeyOf(x)];
        var d' := seq(|keys'|, j requires 0 <= j < |keys'| => EntryFor(init, keys'[j]));
        AbsentKeyHasNoEvidence(init, KeyOf(x));
        assert d'[..|keys|] == Grouped(init);
        assert d' == d'[..|keys|] + [d'[|keys|]];
        assert TotalEvidence(d') == TotalEvidence(Grouped(init));
      }
    }
  }

  /** A group's `reference` is that of the last record with its key: the
      field is overwritten on every matching record. */
  lemma {:induction false} ReferenceOfLastRecord(records: seq<ClaimChecked>, k: Key) returns (i: nat)
    requires k in KeysInOrder(records)
    ensures i < |records| && KeyOf(records[i]) == k
    ensures LastReference(records, k) == records[i].reference
    ensures forall j :: i < j < |records| ==> KeyOf(records[j]) != k
  {
    var init := records[..|records| - 1];
    if KeyOf(records[|records| - 1]) == k {
      i := |records| - 1;
    } else {
      i := ReferenceOfLastRecord(init, k);
      assert records[i] == init[i];
    }
  }

  /** A group's evidence lists, in input order, exactly the records with its
      key: entry `m` comes from record `idx[m]`, the indices increase, and
      every record with the key is among them. */
  lemma {:induction false} EvidenceInInputOrder(records: seq<ClaimChecked>, k: Key) returns (idx: seq<nat>)
    ensures |idx| == |EvidenceFor(records, k)|
    ensures forall m :: 0 <= m < |idx| ==>
              idx[m] < |records| && KeyOf(records[idx[m]]) == k && EvidenceFor(records, k)[m] == EvidenceOf(records[idx[m]])
    ensures forall a, b :: 0 <= a < b < |idx| ==> idx[a] < idx[b]
    ensures forall i :: 0 <= i < |records| && KeyOf(records[i]) == k ==> i in idx
  {
    if records == [] {
      idx := [];
    } else {
      var n := |records| - 1;
      var init := records[..n];
      var idx' := EvidenceInInputOrder(init, k);
      assert forall i :: 0 <= i < n ==> records[i] == init[i];
      if KeyOf(records[n]) == k {
        idx := idx' + [n];
      } else {
        idx := idx';
      }
    }
  }

  /** Group `a`'s `reference` is the reference of the last input record with its key. */
  lemma GroupReference(records: seq<ClaimChecked>, a: nat) returns (i: nat)
    requires a < |Grouped(records)|
    ensures i < |records| && KeyOf(records[i]) == EntryKey(Grouped(records)[a])
    ensures Grouped(records)[a].reference == records[i].reference
    ensures forall j :: i < j < |records| ==> KeyOf(records[j]) != EntryKey(Grouped(records)[a])
  {
    var keys := KeysInOrder(records);
    assert keys[a] in keys;
    i := ReferenceOfLastRecord(records, keys[a]);
  }

  /** Group `a`'s evidence holds `result`, `source_reference` and
      `source_quote` of exactly the input records with its key, in input order. */
  lemma GroupEvidence(records: seq<ClaimChecked>, a: nat) returns (idx: seq<nat>)
    requires a < |Grouped(records)|
    ensures var e := Grouped(records)[a].evidence;
            && |idx| == |e|
            && (forall m :: 0 <= m < |idx| ==>
                  idx[m] < |records| && KeyOf(records[idx[m]]) == EntryKey(Grouped(records)[a]) && e[m] == EvidenceOf(records[idx[m]]))
            && (forall p, q :: 0 <= p < q < |idx| ==> idx[p] < idx[q])
            && (forall i :: 0 <= i < |records| && KeyOf(records[i]) == EntryKey(Grouped(records)[a]) ==> i in idx)
  {
    idx := EvidenceInInputOrder(records, KeysInOrder(records)[a]);
  }

  /** The same claim text with two different queries forms two groups. */
  lemma SeparateGroupsPerQuery(a: ClaimChecked, b: ClaimChecked)
    requires a.claim == b.claim && a.verificationQuery != b.verificationQuery
    ensures |Grouped([a, b])| == 2
    ensures Grouped([a, b])[0].evidence == [EvidenceOf(a)] && Grouped([a, b])[1].evidence == [EvidenceOf(b)]
  {
    assert [a, b][..1] == [a];
    assert KeysInOrder([a]) == [KeyOf(a)];
    assert KeysInOrder([a, b]) == [KeyOf(a), KeyOf(b)];
    assert EvidenceFor([a], KeyOf(a)) == [EvidenceOf(a)];
    assert EvidenceFor([a], KeyOf(b)) == [];
  }

  // ---------------------------------------------------------------------
  // transform_claims as written, and its call site
  // ---------------------------------------------------------------------

  /** The Python values `transform_claims` can be handed, as far as it looks
      at them: a string, a list, a dict that is not a record, and a record
      dict as `ClaimChecked.model_dump()` produces it. */
  datatype PyValue =
    | PyStr(s: string)
    | PyList(items: seq<PyValue>)
    | PyDict(entries: map<string, PyValue>)
    | PyRecord(record: ClaimChecked)

  /** The keys of a record dict. */
  const RecordFields: set<string> :=
    {"claim", "reference", "verification_query", "result", "source_reference", "source_quote"}

  /** A one-element tuple `(x,)`. */
  datatype Singleton<T> = Singleton(only: T)

  /** A Python expression that returns a value or raises. */
  datatype Outcome<T> = Returned(value: T) | Raised(error: string)

  /** `v[key]` for a string `key` that is not a record field: a string or a
      list raises `TypeError`, a dict without the key (a record dict has only
      its own fields) raises `KeyError`. */
  function Subscript(v: PyValue, key: string): (r: Outcome<PyValue>)
    requires key !in RecordFields
    ensures r.Returned? <==> v.PyDict? && key in v.entries
    ensures r.Returned? ==> r.value == v.entries[key]
  {
    match v
    case PyStr(_) => Raised("TypeError: string indices must be integers")
    case PyList(_) => Raised("TypeError: list indices must be integers or slices, not str")
    case PyDict(entries) => if key in entries then Returned(entries[key]) else Raised("KeyError: " + key)
    case PyRecord(_) => Raised("KeyError: " + key)
  }

  /** The records `for claim in v: ... claim["claim"] ...` reads, or `None`
      where a step raises. Iterating a dict or a string yields its keys or
      characters, and subscripting a string with `"claim"` raises, so of
      those only an empty one gets through; a list gets through when every
      element is a record dict. */
  function IteratedRecords(v: PyValue): (records: Option<seq<ClaimChecked>>)
    ensures records.Some? && v.PyList? ==>
              && |records.value| == |v.items|
              && forall i :: 0 <= i < |v.items| ==> v.items[i] == PyRecord(records.value[i])
    ensures records.Some? && !v.PyList? ==> records.value == []
    ensures v.PyRecord? ==> records.None?
  {
    match v
    case PyList(items) =>
      if forall i :: 0 <= i < |items| ==> items[i].PyRecord? then
        Some(seq(|items|, i requires 0 <= i < |items| => items[i].record))
      else None
    case PyDict(entries) => if |entries| == 0 then Some([]) else None
    case PyStr(s) => if s == [] then Some([]) else None
    case PyRecord(_) => None
  }

  /** `transform_claims(data)` as written: it reads `data["factuality"]["claims"]`,
      groups the records, and the trailing comma after `list(claim_map.values())`
      wraps the groups in a one-element tuple. It returns only for a dict
      holding a dict under `"factuality"`. */
  function TransformClaimsAsWritten(data: PyValue): (r: Outcome<Singleton<seq<Entry>>>)
    ensures r.Returned? ==> data.PyDict? && "factuality" in data.entries
    ensures r.Returned? ==> data.entries["factuality"].PyDict? && "claims" in data.entries["factuality"].entries
  {
    match Subscript(data, "factuality")
    case Raised(e) => Raised(e)
    case Returned(section) =>
      match Subscript(section, "claims")
      case Raised(e) => Raised(e)
      case Returned(claims) =>
        match IteratedRecords(claims)
        case None => Raised("TypeError: string indices must be integers")
        case Some(records) => Returned(Singleton(Grouped(records)))
  }

  /** `[claim.model_dump() for claim in checked_claims]`, the argument `main()` builds. */
  function Dumped(records: seq<ClaimChecked>): (v: PyValue)
  {
    PyList(seq(|records|, i requires 0 <= i < |records| => PyRecord(records[i])))
  }

  /** The document `{"factuality": {"claims": [...]}}` the function expects. */
  function OutputDocument(records: seq<ClaimChecked>): (v: PyValue)
  {
    PyDict(map["factuality" := PyDict(map["claims" := Dumped(records)])])
  }

  /** Handed a list, which is what the call in `main()` passes, the function
      raises before it looks at any record, so the JSON output path always fails. */
  lemma CallSiteAlwaysRaises(records: seq<ClaimChecked>)
    ensures TransformClaimsAsWritten(Dumped(records)).Raised?
    ensures forall items :: TransformClaimsAsWritten(PyList(items)).Raised?
  {
  }

  /** Handed the document it expects, the function groups exactly as
      `Grouped`, but returns the groups inside a one-element tuple instead of
      as the list itself. */
  lemma DocumentIsGroupedInTuple(records: seq<ClaimChecked>)
    ensures TransformClaimsAsWritten(OutputDocument(records)) == Returned(Singleton(Grouped(records)))
  {
    var items := Dumped(records).items;
    assert forall i :: 0 <= i < |items| ==> items[i] == PyRecord(records[i]);
    assert seq(|items|, i requires 0 <= i < |items| => items[i].record) == records;
  }
}
