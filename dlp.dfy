/**
  The request that `deidentify_with_crypto_hash` in redactdemo/dlp.py sends
  to Google Cloud DLP, and two checks of its `main`: the length of a
  user-supplied key and the combined source/redacted document. The DLP call
  itself, argument parsing and file I/O are not modelled.
*/
module Dlp {

  import opened Wrappers
  import opened Encoding

  // ---------------------------------------------------------------------------
  // The request, as the dictionaries the source builds
  // ---------------------------------------------------------------------------

  /** DLP's `Likelihood` enumeration. */
  datatype Likelihood = LikelihoodUnspecified | VeryUnlikely | Unlikely | Possible | Likely | VeryLikely

  /** DLP's `MatchingType` enumeration. */
  datatype MatchingType = MatchingTypeUnspecified | FullMatch | PartialMatch | InverseMatch

  /** One entry of `rules`. */
  datatype Rule =
    | HotwordRule(hotwordRegex: string, fixedLikelihood: Likelihood, windowBefore: nat)
    | ExclusionRule(excludeInfoTypes: seq<string>, matchingType: MatchingType, regex: string)

  /** One entry of `rule_set`: the info types it applies to and its rules. */
  datatype InspectionRuleSet = InspectionRuleSet(infoTypes: seq<string>, rules: seq<Rule>)

  /** `inspect_config`; `ruleSet` is `None` while the key is absent from the dictionary. */
  datatype InspectConfig = InspectConfig(infoTypes: seq<string>, ruleSet: Option<seq<InspectionRuleSet>>)

  /** `crypto_key`: either the caller's raw key or a key DLP generates for the one request. */
  datatype CryptoKey = Unwrapped(key: seq<byte>) | Transient(name: string)

  /** `deidentify_config`: info-type transformations, each a crypto hash. */
  datatype DeidentifyConfig = DeidentifyConfig(cryptoHashKeys: seq<CryptoKey>)

  datatype Request = Request(
    parent: string,
    deidentifyConfig: DeidentifyConfig,
    inspectConfig: InspectConfig,
    item: string)

  /** The info types to detect and transform. */
  const InfoTypes: seq<string> := [
    "PERSON_NAME",
    "EMAIL_ADDRESS",
    "PHONE_NUMBER",
    "CREDIT_CARD_NUMBER",
    "ORGANIZATION_NAME",
    "FINANCIAL_ACCOUNT_NUMBER",
    "GEOGRAPHIC_DATA"
  ]

  const TransientKeyName: string := "dlp-generated-key"

  /** Python truthiness of an optional list: present and non-empty. */
  predicate Given<T>(o: Option<seq<T>>) {
    o.Some? && |o.value| > 0
  }

  // ---------------------------------------------------------------------------
  // The hotword and exclusion patterns
  // ---------------------------------------------------------------------------

  /** `"|".join(words)` */
  function JoinBars(words: seq<string>): string
    decreases |words|
  {
    if words == [] then ""
    else if |words| == 1 then words[0]
    else words[0] + "|" + JoinBars(words[1..])
  }

  /** `s.split("|")`: the pieces between bars, at least one. */
  function SplitBars(s: string): (pieces: seq<string>)
    ensures |pieces| >= 1
    decreases |s|
  {
    if s == [] then [""]
    else
      var rest := SplitBars(s[1..]);
      if s[0] == '|' then [""] + rest else [[s[0]] + rest[0]] + rest[1..]
  }

  const CaseInsensitiveOpen: string := "(?i)("
  const CaseInsensitiveClose: string := ")(?-i)"

  /** `f"(?i)({pattern})(?-i)"` with `pattern = "|".join(words)`. */
  function IgnoreCaseAlternation(words: seq<string>): (pattern: string)
    ensures |pattern| >= 11
    ensures pattern[..5] == CaseInsensitiveOpen
    ensures pattern[|pattern| - 6..] == CaseInsensitiveClose
    ensures pattern[5..|pattern| - 6] == JoinBars(words)
  {
    var p := CaseInsensitiveOpen + JoinBars(words) + CaseInsensitiveClose;
    assert p[..5] == CaseInsensitiveOpen;
    assert p[|p| - 6..] == CaseInsensitiveClose;
    assert p[5..|p| - 6] == JoinBars(words);
    p
  }

  /** The alternatives inside a pattern of `IgnoreCaseAlternation`. */
  function Alternatives(pattern: string): seq<string>
    requires |pattern| >= 11
  {
    SplitBars(pattern[5..|pattern| - 6])
  }

  lemma {:induction false} SplitWithoutBar(w: string)
    requires '|' !in w
    ensures SplitBars(w) == [w]
    decreases |w|
  {
    if w != [] {
      SplitWithoutBar(w[1..]);
      assert w == [w[0]] + w[1..];
    }
  }

  /** One step of `SplitBars`: a bar starts a new piece, any other character extends the first. */
  lemma SplitCons(c: char, t: string)
    ensures SplitBars([c] + t) ==
      if c == '|' then [""] + SplitBars(t) else [[c] + SplitBars(t)[0]] + SplitBars(t)[1..]
  {
    assert ([c] + t)[0] == c;
    assert ([c] + t)[1..] == t;
  }

  /** A bar between two texts separates their pieces and joins nothing. */
  lemma {:induction false} SplitAroundBar(w: string, rest: string)
    ensures SplitBars(w + "|" + rest) == SplitBars(w) + SplitBars(rest)
    decreases |w|
  {
    if w == [] {
      assert w + "|" + rest == ['|'] + rest;
      SplitCons('|', rest);
    } else {
      var c, t := w[0], w[1..] + "|" + rest;
      assert w + "|" + rest == [c] + t;
      assert w == [c] + w[1..];
      SplitCons(c, t);
      SplitCons(c, w[1..]);
      SplitAroundBar(w[1..], rest);
      ExtendFirstPiece(c, SplitBars(w[1..]), SplitBars(rest));
    }
  }

  /** Prepending a character or a bar to the pieces of `head + tail` only affects `head`. */
  lemma ExtendFirstPiece(c: char, head: seq<string>, tail: seq<string>)
    requires |head| >= 1
    ensures [[c] + (head + tail)[0]] + (head + tail)[1..] == [[c] + head[0]] + head[1..] + tail
    ensures [""] + (head + tail) == [""] + head + tail
  {
    assert (head + tail)[0] == head[0];
    assert (head + tail)[1..] == head[1..] + tail;
  }

  /** The pieces of each word, one word after another. */
  function SplitEach(words: seq<string>): seq<string>
    decreases |words|
  {
    if words == [] then [] else SplitBars(words[0]) + SplitEach(words[1..])
  }

  /**
    Splitting a join gives the pieces of every word in order: a bar inside a
    word splits that word, and the joining bars split between words.
  */
  lemma {:induction false} SplitJoinEach(words: seq<string>)
    requires |words| >= 1
    ensures SplitBars(JoinBars(words)) == SplitEach(words)
    decreases |words|
  {
    if |words| == 1 {
      assert SplitEach(words[1..]) == [];
    } else {
      SplitAroundBar(words[0], JoinBars(words[1..]));
      SplitJoinEach(words[1..]);
    }
  }

  /** Splitting a join gives the words back when none of them contains a bar. */
  lemma {:induction false} SplitJoin(words: seq<string>)
    requires |words| >= 1
    requires forall w :: w in words ==> '|' !in w
    ensures SplitBars(JoinBars(words)) == words
    decreases |words|
  {
    if |words| == 1 {
      SplitWithoutBar(words[0]);
    } else {
      SplitAroundBar(words[0], JoinBars(words[1..]));
      SplitWithoutBar(words[0]);
      SplitJoin(words[1..]);
      assert words == [words[0]] + words[1..];
    }
  }

  /** For any words, the pattern's alternatives are the pieces of the words, in order. */
  lemma AlternativesOfWords(words: seq<string>)
    requires |words| >= 1
    ensures Alternatives(IgnoreCaseAlternation(words)) == SplitEach(words)
  {
    SplitJoinEach(words);
  }

  /**
    The pattern is exactly the user's words as alternatives, in order, when
    none of them contains a bar. (Words are regular expressions; a bar inside
    one adds alternatives of its own.)
  */
  lemma AlternationOfWords(words: seq<string>)
    requires |words| >= 1
    requires forall w :: w in words ==> '|' !in w
    ensures Alternatives(IgnoreCaseAlternation(words)) == words
  {
    SplitJoin(words);
  }

  // ---------------------------------------------------------------------------
  // deidentify_with_crypto_hash
  // ---------------------------------------------------------------------------

  /** The rules of the request: the hotword rule, if any, then the exclusion rule, if any. */
  function Rules(hotwords: Option<seq<string>>, exclusions: Option<seq<string>>): (rules: seq<Rule>)
    ensures |rules| == (if Given(hotwords) then 1 else 0) + (if Given(exclusions) then 1 else 0)
    ensures Given(hotwords) ==>
      rules[0] == HotwordRule(IgnoreCaseAlternation(hotwords.value), VeryUnlikely, 1)
    ensures Given(exclusions) ==>
      rules[|rules| - 1] == ExclusionRule(InfoTypes, FullMatch, IgnoreCaseAlternation(exclusions.value))
    ensures forall i, j :: 0 <= i < j < |rules| ==> rules[i].HotwordRule? && rules[j].ExclusionRule?
  {
    (if Given(hotwords) then [HotwordRule(IgnoreCaseAlternation(hotwords.value), VeryUnlikely, 1)] else [])
    + (if Given(exclusions) then [ExclusionRule(InfoTypes, FullMatch, IgnoreCaseAlternation(exclusions.value))] else [])
  }

  /** The rule set of the inspect config: one entry over the info types, only when there are rules. */
  function RuleSet(hotwords: Option<seq<string>>, exclusions: Option<seq<string>>): (ruleSet: Option<seq<InspectionRuleSet>>)
    ensures ruleSet.Some? <==> Given(hotwords) || Given(exclusions)
    ensures ruleSet.Some? ==> ruleSet.value == [InspectionRuleSet(InfoTypes, Rules(hotwords, exclusions))]
  {
    var rules := Rules(hotwords, exclusions);
    if |rules| > 0 then Some([InspectionRuleSet(InfoTypes, rules)]) else None
  }

  /** The list `rules`, built by appending the hotword rule and then the exclusion rule. */
  method BuildRules(hotwords: Option<seq<string>>, exclusions: Option<seq<string>>) returns (rules: seq<Rule>)
    ensures |rules| == (if Given(hotwords) then 1 else 0) + (if Given(exclusions) then 1 else 0)
    ensures Given(hotwords) ==>
      rules[0] == HotwordRule(IgnoreCaseAlternation(hotwords.value), VeryUnlikely, 1)
    ensures Given(exclusions) ==>
      rules[|rules| - 1] == ExclusionRule(InfoTypes, FullMatch, IgnoreCaseAlternation(exclusions.value))
    ensures forall i, j :: 0 <= i < j < |rules| ==> rules[i].HotwordRule? && rules[j].ExclusionRule?
    ensures rules == Rules(hotwords, exclusions)
  {
    rules := [];
    if Given(hotwords) {
      var hotwordRegex := IgnoreCaseAlternation(hotwords.value);
      rules := rules + [HotwordRule(hotwordRegex, VeryUnlikely, 1)];
    }
    if Given(exclusions) {
      var exclusionRegex := IgnoreCaseAlternation(exclusions.value);
      rules := rules + [ExclusionRule(InfoTypes, FullMatch, exclusionRegex)];
    }
  }

  /** `inspect_config`: the info types, and a rule set only when there are rules. */
  method BuildInspectConfig(hotwords: Option<seq<string>>, exclusions: Option<seq<string>>)
    returns (config: InspectConfig)
    ensures config.infoTypes == InfoTypes
    ensures config.ruleSet.Some? <==> Given(hotwords) || Given(exclusions)
    ensures config.ruleSet == RuleSet(hotwords, exclusions)
  {
    config := InspectConfig(InfoTypes, None);
    var rules := BuildRules(hotwords, exclusions);
    if |rules| > 0 {
      config := config.(ruleSet := Some([InspectionRuleSet(InfoTypes, rules)]));
    }
  }

  /** `crypto_key`: the caller's key when it is non-empty, else a transient key. */
  function CryptoKeyFor(keyBytes: Option<seq<byte>>): (k: CryptoKey)
    ensures k.Unwrapped? <==> Given(keyBytes)
    ensures k.Unwrapped? ==> k.key == keyBytes.value && |k.key| > 0
    ensures k.Transient? ==> k.name == TransientKeyName
  {
    if Given(keyBytes) then Unwrapped(keyBytes.value) else Transient(TransientKeyName)
  }

  /** The request of `deidentify_with_crypto_hash`. */
  method BuildRequest(
    projectId: string,
    text: string,
    keyBytes: Option<seq<byte>>,
    hotwords: Option<seq<string>>,
    exclusions: Option<seq<string>>)
    returns (request: Request)
    ensures request.parent == "projects/" + projectId + "/locations/global"
    ensures request.item == text
    ensures request.deidentifyConfig.cryptoHashKeys == [CryptoKeyFor(keyBytes)]
    ensures request.inspectConfig.infoTypes == InfoTypes
    ensures request.inspectConfig.ruleSet.Some? <==> Given(hotwords) || Given(exclusions)
    ensures request.inspectConfig.ruleSet == RuleSet(hotwords, exclusions)
  {
    var parent := "projects/" + projectId + "/locations/global";
    var inspectConfig := BuildInspectConfig(hotwords, exclusions);
    var deidentifyConfig := DeidentifyConfig([CryptoKeyFor(keyBytes)]);
    request := Request(parent, deidentifyConfig, inspectConfig, text);
  }

  // ---------------------------------------------------------------------------
  // main: the key check and the combined document
  // ---------------------------------------------------------------------------

  datatype KeyError = UndecodableKey | WrongKeyLength(length: nat)

  predicate AcceptedKeyLength(n: nat) {
    n == 32 || n == 64
  }

  /**
    The key of `main`: none without `--key`; otherwise `decoded` is the result
    of `base64.b64decode` on it (`None` when decoding raised), which must be
    32 or 64 bytes long.
  */
  function LoadKey(keyArg: Option<string>, decoded: Option<seq<byte>>): (r: Result<Option<seq<byte>>, KeyError>)
    ensures !Given(keyArg) ==> r == Ok(None)
    ensures Given(keyArg) && decoded.None? ==> r == Err(UndecodableKey)
    ensures Given(keyArg) && decoded.Some? ==>
      (r.Ok? <==> AcceptedKeyLength(|decoded.value|)) &&
      (r.Ok? ==> r.value == Some(decoded.value)) &&
      (r.Err? ==> r.error == WrongKeyLength(|decoded.value|))
  {
    if !Given(keyArg) then Ok(None)
    else if decoded.None? then Err(UndecodableKey)
    else if !AcceptedKeyLength(|decoded.value|) then Err(WrongKeyLength(|decoded.value|))
    else Ok(Some(decoded.value))
  }

  /**
    What reaches DLP from `main`: a transient key without `--key`, and with
    one, an unwrapped key of 32 or 64 bytes; anything else stopped `main`.
  */
  lemma AcceptedKeyReachesRequest(keyArg: Option<string>, decoded: Option<seq<byte>>)
    requires LoadKey(keyArg, decoded).Ok?
    ensures var k := CryptoKeyFor(LoadKey(keyArg, decoded).value);
      (k.Transient? <==> !Given(keyArg)) &&
      (k.Unwrapped? ==> AcceptedKeyLength(|k.key|) && Some(k.key) == decoded)
  {
  }

  const SourceOpen: string := "<source>"
  const SourceCloseRedactedOpen: string := "</source>\n<redacted>"
  const RedactedClose: string := "</redacted>"

  /** `f"<source>{text}</source>\n<redacted>{redacted_text}</redacted>"` */
  function CombinedDocument(text: string, redacted: string): (doc: string)
    ensures |doc| == |text| + |redacted| + 39
    ensures doc[..8] == SourceOpen
    ensures doc[8..8 + |text|] == text
    ensures doc[8 + |text|..28 + |text|] == SourceCloseRedactedOpen
    ensures doc[28 + |text|..|doc| - 11] == redacted
    ensures doc[|doc| - 11..] == RedactedClose
  {
    SourceOpen + text + SourceCloseRedactedOpen + redacted + RedactedClose
  }

  /** Reads a combined document back, given the length of the source part. */
  function SplitCombined(doc: string, sourceLength: nat): Option<(string, string)> {
    if |doc| >= sourceLength + 39 &&
       doc[..8] == SourceOpen &&
       doc[8 + sourceLength..28 + sourceLength] == SourceCloseRedactedOpen &&
       doc[|doc| - 11..] == RedactedClose
    then Some((doc[8..8 + sourceLength], doc[28 + sourceLength..|doc| - 11]))
    else None
  }

  /** The combined document holds both texts unchanged. */
  lemma CombinedRoundTrip(text: string, redacted: string)
    ensures SplitCombined(CombinedDocument(text, redacted), |text|) == Some((text, redacted))
  {
  }
}
