# PII redaction demo: the deterministic core, in Dafny

This project models the parts of the redaction demo that do not depend on an
external PII service. There are three of them.

- **The Comprehend rewriter** (`remove_pii`, module `Comprehend`). It takes
  the entities the recognizer reports and sorts them by begin offset, largest
  first. It then replaces each `[begin, end)` slice of the text with the
  URL-safe base64 of the slice's SHA-256 digest. The main theorem says that,
  for non-overlapping, non-empty, in-bounds entities, the loop gives the same
  result as this reference built from the original text: every character
  outside a span is kept in order, and every span becomes the token of its
  *original* characters. The output length is
  `|text| - Σ(end - begin) + 44·|entities|`.
- **Presidio's token and tables** (module `Presidio`). These are the
  `hash_pii` token `[LABEL:xxxxxxxx]`, the `ENTITY_TYPE_MAPPING` filter on
  command-line entity names, and the per-type operator label table.
- **The Cloud DLP request** (module `Dlp`). This covers the hotword and
  exclusion patterns `(?i)(w1|w2|…)(?-i)`, the rule list, the conditional
  `rule_set`, and the choice between an unwrapped and a transient crypto key.
  From `main` it also covers the 32-or-64-byte key check and the combined
  `<source>…</source>\n<redacted>…</redacted>` document.

Module `Encoding` holds the URL-safe base64 alphabet of section 5 of RFC 4648
and lowercase hex. Both are written out, so the token facts are proved rather
than assumed: 44 characters, the URL-safe alphabet, one trailing `=`, and 8
lowercase hex digits. SHA-256 (FIPS 180-4) is not modelled. Every operation
that hashes takes it as a parameter `hash: string -> Digest`, whose only
promise is a 32-byte result. So a token depends on the hashed text alone:
equal slices always get equal tokens.

Offsets are character indices into a Dafny `string` and are never negative.
Python's slicing is modelled as written: an index past the end is clamped,
and `s[i:j]` is empty when `j <= i`. This means `RemovePii` needs no
precondition. Well-formedness (`Comprehend.WellFormed`: each entity is
non-empty and inside the text, and no two overlap) appears only as the
hypothesis of the results that need it. `Comprehend.NestedEntitiesKeepOuterTail`
shows what happens without it.

Python's `None` and an empty list behave alike under `if x:`. Both are kept
apart in the model (`Option<seq<…>>`), and the predicate `Dlp.Given` is that
truthiness test.

## Model

| member | source | states |
|---|---|---|
| `Encoding.Base64Url` | redactdemo/comprehend.py:23 | encoding n bytes gives 4·⌈n/3⌉ characters; all are URL-safe alphabet characters except the last (3 − n mod 3) mod 3, which are `=` |
| `Encoding.Base64UrlRoundTrip` | redactdemo/comprehend.py:23 | the encoding is well-formed base64 text, and decoding it gives back the bytes, so distinct digests give distinct tokens |
| `Encoding.DigestTokenShape` | redactdemo/comprehend.py:22-23 | the encoding of a 32-byte digest has 44 characters: 43 from the URL-safe alphabet, then one `=` |
| `Encoding.Hex` | redactdemo/presidio_redact.py:71 | the hex digest has two characters per byte, all of them in `0-9a-f` |
| `Encoding.HexDigitsOfByte` | redactdemo/presidio_redact.py:71 | digits 2k and 2k+1 give back byte k (high nibble first) |
| `Encoding.HexPrefix` | redactdemo/presidio_redact.py:71 | the first 2k hex digits are the hex of the first k bytes |
| `Comprehend.Token` | redactdemo/comprehend.py:21-23 | the token of a slice is 44 base64 characters ending in `=`, and is a function of the slice alone |
| `Comprehend.Replace` | redactdemo/comprehend.py:24 | for an entity inside the string, the text before `begin` is unchanged, the token of the slice follows it, then the text from `end` on, unchanged; the length changes by 44 − (end − begin) |
| `Comprehend.SortByBeginDescending` | redactdemo/comprehend.py:17 | the sorted list is a permutation of the entities (same multiset) |
| `Comprehend.SortSorted` | redactdemo/comprehend.py:17 | the sorted list is in non-increasing order of begin offset |
| `Comprehend.SortStable` | redactdemo/comprehend.py:17 | for every begin offset, the entities with that offset keep their input order (Python's sort is stable under `reverse=True`) |
| `Comprehend.ReplaceAllAppend` | redactdemo/comprehend.py:18-24 | rewriting spans that lie right to left inside a prefix never touches what follows the prefix |
| `Comprehend.ReplaceAllIsRedactOriginal` | redactdemo/comprehend.py:15-24 | for right-to-left spans, the loop equals the reference result built from the original text, so every slice that is hashed is the original slice |
| `Comprehend.RedactOriginalLength` | redactdemo/comprehend.py:16-24 | the result has length `|text| − Σ(end − begin) + 44·|spans|` |
| `Comprehend.SortCovered` | redactdemo/comprehend.py:17 | sorting leaves the total span length Σ(end − begin) unchanged |
| `Comprehend.SortKeepsApart` | redactdemo/comprehend.py:17 | sorting keeps entities pairwise non-overlapping |
| `Comprehend.SortedIsRightToLeft` | redactdemo/comprehend.py:15-17 | once sorted, well-formed entities are a right-to-left list: each ends at or before the begin of every entity before it |
| `Comprehend.NestedEntitiesKeepOuterTail` | redactdemo/comprehend.py:17-24 | when an inner entity starts after an outer one, ends before it, and is shorter than a token (44 characters), the output ends with the original text from `ClearFrom(outer, inner)` on. That offset lies in `[inner.end, outer.end)`, so at least the outer entity's last character stays in clear, and the non-overlap hypothesis is needed |
| `Comprehend.RemovePii` | redactdemo/comprehend.py:9-26 | the result is `ReplaceAll` (the loop of lines 18-24, one `Replace` per entity, written as recursion) over the descending stable sort; with no entities it is the input; for well-formed entities it is the reference result on the original text, with length `|text| − Σ(end − begin) + 44·|entities|` |
| `Presidio.LabelFor` | redactdemo/presidio_redact.py:76-90 | a type in the operator table gets that entry's label; any other type gets the `DEFAULT` label `ENTITY` |
| `Presidio.ShortHash` | redactdemo/presidio_redact.py:69-71 | the short hash is 8 lowercase hex digits: the hex of the digest's first 4 bytes |
| `Presidio.HashPii` | redactdemo/presidio_redact.py:67-73 | the token is `[`, the label, `:`, the short hash of the text, `]`, with length `|label| + 11` |
| `Presidio.ParseHashPii` | redactdemo/presidio_redact.py:73 | reading the token from its end gives back exactly the label and the short hash, even when the label contains `:` |
| `Presidio.Anonymize` | redactdemo/presidio_redact.py:76-90 | the operator for an entity type yields a token that carries that type's label and the value's short hash |
| `Presidio.MapKnown` | redactdemo/presidio_redact.py:61 | the filtered list is no longer than the input, and each element is a Presidio type from the mapping |
| `Presidio.MapKnownAppend` | redactdemo/presidio_redact.py:61 | filtering a concatenation gives the concatenation of the filtered parts, so input order is kept |
| `Presidio.MapKnownMembers` | redactdemo/presidio_redact.py:61 | a type is in the result if and only if some known input name maps to it; unknown names are dropped without error |
| `Presidio.MapKnownLength` | redactdemo/presidio_redact.py:61 | nothing is dropped if and only if every input name is in the mapping |
| `Presidio.PresidioEntities` | redactdemo/presidio_redact.py:59-61 | the result is `None` ("all entities") if and only if no entity list, or an empty one, was given; otherwise it is the filtered list |
| `Presidio.MappedTypesHaveOperators` | redactdemo/presidio_redact.py:76-90 | every value of `ENTITY_TYPE_MAPPING` has its own operator entry, so its label is never the default `ENTITY` |
| `Presidio.MappingInjective` | redactdemo/presidio_redact.py:30-43 | no two command-line names map to the same Presidio type |
| `Dlp.SplitJoin` | redactdemo/dlp.py:40 | splitting `"|".join(words)` on `|` gives back the words, when none contains `|` |
| `Dlp.IgnoreCaseAlternation` | redactdemo/dlp.py:40-41 | for any words, the pattern is `(?i)(`, then the `|`-join of the words, then `)(?-i)` |
| `Dlp.SplitAroundBar` | redactdemo/dlp.py:40 | splitting on `|` a text with a bar in it gives the pieces before the bar followed by the pieces after it |
| `Dlp.SplitJoinEach` | redactdemo/dlp.py:40 | for any words, splitting their `|`-join gives each word's own pieces, in order |
| `Dlp.AlternativesOfWords` | redactdemo/dlp.py:40-41 | for any words, including words with `|` in them, the pattern's alternatives are the pieces of the words in order |
| `Dlp.AlternationOfWords` | redactdemo/dlp.py:51-52 | inside the wrapper, the pattern's alternatives are exactly the user's words in order, when none contains `|` |
| `Dlp.Rules` | redactdemo/dlp.py:36-58 | the rule list has one rule per non-empty list, the hotword rule before the exclusion rule; the hotword rule has the join-and-wrap pattern, fixed likelihood `VERY_UNLIKELY` and window_before 1; the exclusion rule is full-match over the inspected info types with the join-and-wrap pattern |
| `Dlp.RuleSet` | redactdemo/dlp.py:60-61 | the rule set exists if and only if hotwords or exclusions were given, and is then exactly one entry carrying the info types and the full rule list |
| `Dlp.BuildRules` | redactdemo/dlp.py:36-58 | one rule per non-empty list, the hotword rule before the exclusion rule; the hotword rule has fixed likelihood `VERY_UNLIKELY` and window_before 1; the exclusion rule is full-match and excludes the inspected info types; both use the join-and-wrap pattern; the list built step by step equals `Rules` |
| `Dlp.BuildInspectConfig` | redactdemo/dlp.py:35-62 | the inspect config has the info types, and has a rule set if and only if hotwords or exclusions were given; that rule set is `RuleSet`, so it holds exactly the rules of `Rules` |
| `Dlp.CryptoKeyFor` | redactdemo/dlp.py:65-71 | the key is unwrapped, carrying the caller's bytes, if and only if those bytes are present and non-empty; otherwise it is the transient key `dlp-generated-key` |
| `Dlp.BuildRequest` | redactdemo/dlp.py:19-91 | the request goes to `projects/<id>/locations/global`, carries the text as its item and one crypto-hash transformation with the chosen key, and its rule set exists exactly when rules exist and is `RuleSet`: one entry with every rule of `Rules` |
| `Dlp.LoadKey` | redactdemo/dlp.py:170-179 | no `--key` means no key; an undecodable key is an error; a decoded key is accepted if and only if it is 32 or 64 bytes long; any other length is an error that carries the length |
| `Dlp.AcceptedKeyReachesRequest` | redactdemo/dlp.py:170-182 | after the key check, DLP gets a transient key if and only if no `--key` was given; otherwise it gets an unwrapped key of 32 or 64 bytes |
| `Dlp.CombinedDocument` | redactdemo/dlp.py:197 | the combined document is `<source>`, the text, `</source>\n<redacted>`, the redacted text, `</redacted>`, with length `|text| + |redacted| + 39` |
| `Dlp.CombinedRoundTrip` | redactdemo/dlp.py:204 | given the length of the source part, the combined document gives back both texts unchanged |

## Left out

- The recognizer calls are not modelled: `comprehend.detect_pii_entities`, Presidio's `analyzer.analyze` and `anonymizer.anonymize`, and DLP's `deidentify_content`. Their results, or their requests, are the model's inputs and outputs. Overlap resolution, likelihood adjustment, regex matching and keyed hashing all happen inside these services.
- SHA-256 is a function parameter with a 32-byte result. `text.encode()` (UTF-8) is folded into it.
- Entities carry only their offsets, since `remove_pii` reads nothing else. Negative offsets, which Python would count from the end, are not modelled: the service never reports them.
- There is no conversion between UTF-16 or byte offsets and character offsets, because the code does none.
- `Presidio.Anonymize` models the operator that the table assigns to a type. How Presidio rewrites the text around the spans is not modelled.
- `Dlp.BuildRules` and `Dlp.AlternationOfWords`: the words are regular expressions that DLP matches. The model describes the pattern string only, not what it matches.
- The base64 decoding of `--key` is the parameter `decoded` of `Dlp.LoadKey`.
- Argument parsing, the default hotwords, environment variables, file reading and writing, stderr messages, `exit`, and key generation with `secrets.token_bytes` are not modelled.
- Module-level client and engine setup is not modelled.
- redactdemo/main.py and redactdemo/gliner.py are not modelled. The first repeats the DLP key check and key choice; the second only configures a model and prints.
- The code has no span resolver, no rule engine of its own, no format-preserving encryption and no keyed (HMAC) hashing. The hashes in `remove_pii` and `hash_pii` are unkeyed SHA-256. A zero-length or overlapping entity is processed as given, not rejected, and the model does the same.
