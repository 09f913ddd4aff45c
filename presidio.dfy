/**
  The deterministic pieces of redactdemo/presidio_redact.py: the table from
  command-line entity names to Presidio entity types, the filter that applies
  it, the per-type operator table and the `hash_pii` token. The analyzer and
  the anonymizer are Presidio library calls and are not modelled.
*/
module Presidio {

  import opened Wrappers
  import opened Encoding

  /** `ENTITY_TYPE_MAPPING`: command-line name to Presidio entity type. */
  const EntityTypeMapping: map<string, string> := map[
    "EMAIL" := "EMAIL_ADDRESS",
    "PHONE" := "PHONE_NUMBER",
    "CREDIT_CARD" := "CREDIT_CARD",
    "SSN" := "US_SSN",
    "NAME" := "PERSON",
    "ADDRESS" := "ADDRESS",
    "URL" := "URL",
    "IP" := "IP_ADDRESS",
    "DATE" := "DATE_TIME",
    "NRP" := "NRP",
    "LOCATION" := "LOCATION",
    "BANK" := "IBAN_CODE"
  ]

  /** The `operators` table: Presidio entity type to the label its `hash_pii` call uses. */
  const OperatorLabels: map<string, string> := map[
    "DEFAULT" := "ENTITY",
    "PERSON" := "PERSON",
    "EMAIL_ADDRESS" := "EMAIL",
    "PHONE_NUMBER" := "PHONE",
    "CREDIT_CARD" := "CC",
    "US_SSN" := "SSN",
    "ADDRESS" := "ADDR",
    "URL" := "URL",
    "IP_ADDRESS" := "IP",
    "DATE_TIME" := "DATE",
    "NRP" := "NRP",
    "LOCATION" := "LOC",
    "IBAN_CODE" := "BANK"
  ]

  const DefaultKey: string := "DEFAULT"

  /** The label of the operator for `entityType`, falling back on the `DEFAULT` entry. */
  function LabelFor(entityType: string): (tag: string)
    ensures entityType in OperatorLabels ==> tag == OperatorLabels[entityType]
    ensures entityType !in OperatorLabels ==> tag == "ENTITY"
  {
    if entityType in OperatorLabels then OperatorLabels[entityType] else OperatorLabels[DefaultKey]
  }

  // ---------------------------------------------------------------------------
  // hash_pii
  // ---------------------------------------------------------------------------

  const ShortHashLength: nat := 8

  /** `hashlib.sha256(text.encode()).hexdigest()[:8]` */
  function ShortHash(hash: Sha256, text: string): (h: string)
    ensures |h| == ShortHashLength
    ensures forall i :: 0 <= i < |h| ==> IsLowerHex(h[i])
    ensures h == Hex(hash(text)[..4])
  {
    HexPrefix(hash(text), 4);
    Hex(hash(text))[..ShortHashLength]
  }

  /** `hash_pii(text, label)`: `[label:xxxxxxxx]` with the short hash of the text. */
  function HashPii(hash: Sha256, text: string, tag: string): (token: string)
    ensures |token| == |tag| + 11
    ensures token[0] == '[' && token[|tag| + 1] == ':' && token[|token| - 1] == ']'
    ensures token[1..|tag| + 1] == tag
    ensures token[|tag| + 2..|token| - 1] == ShortHash(hash, text)
  {
    "[" + tag + ":" + ShortHash(hash, text) + "]"
  }

  /** A token split back into its label and short hash. */
  datatype TokenParts = TokenParts(tag: string, shortHash: string)

  /**
    Reads a token from its end: the last character is `]`, the eight before it
    are the short hash and the one before those is `:`, so a `:` inside the
    label does not confuse it.
  */
  function ParseToken(token: string): Option<TokenParts> {
    if |token| >= 11 && token[0] == '[' && token[|token| - 1] == ']' && token[|token| - 10] == ':'
    then Some(TokenParts(token[1..|token| - 10], token[|token| - 9..|token| - 1]))
    else None
  }

  /** Every token names its label and its short hash unambiguously. */
  lemma ParseHashPii(hash: Sha256, text: string, tag: string)
    ensures ParseToken(HashPii(hash, text, tag)) == Some(TokenParts(tag, ShortHash(hash, text)))
  {
    var t := HashPii(hash, text, tag);
    assert |t| - 10 == |tag| + 1;
  }

  /** The operator of the table for `entityType`, applied to a detected value. */
  function Anonymize(hash: Sha256, entityType: string, value: string): (token: string)
    ensures ParseToken(token) == Some(TokenParts(LabelFor(entityType), ShortHash(hash, value)))
  {
    ParseHashPii(hash, value, LabelFor(entityType));
    HashPii(hash, value, LabelFor(entityType))
  }

  // ---------------------------------------------------------------------------
  // Entity filter of analyze_and_redact
  // ---------------------------------------------------------------------------

  /** `[ENTITY_TYPE_MAPPING[e] for e in names if e in ENTITY_TYPE_MAPPING]` */
  function MapKnown(names: seq<string>): (r: seq<string>)
    ensures |r| <= |names|
    ensures forall y :: y in r ==> y in EntityTypeMapping.Values
    decreases |names|
  {
    if names == [] then []
    else
      var head := if names[0] in EntityTypeMapping then [EntityTypeMapping[names[0]]] else [];
      head + MapKnown(names[1..])
  }

  /** The filter works name by name, so it keeps the order of the input. */
  lemma {:induction false} MapKnownAppend(a: seq<string>, b: seq<string>)
    ensures MapKnown(a + b) == MapKnown(a) + MapKnown(b)
    decreases |a|
  {
    if a != [] {
      var head := if a[0] in EntityTypeMapping then [EntityTypeMapping[a[0]]] else [];
      assert (a + b)[0] == a[0];
      assert (a + b)[1..] == a[1..] + b;
      assert MapKnown(a + b) == head + MapKnown(a[1..] + b);
      MapKnownAppend(a[1..], b);
      assert MapKnown(a) == head + MapKnown(a[1..]);
    } else {
      assert a + b == b;
    }
  }

  /**
    Every known name contributes its Presidio type, every output type comes
    from a known name in the input, and an unknown name contributes nothing.
  */
  lemma {:induction false} MapKnownMembers(names: seq<string>, y: string)
    ensures y in MapKnown(names) <==>
      exists x :: x in names && x in EntityTypeMapping && EntityTypeMapping[x] == y
    decreases |names|
  {
    if names != [] {
      MapKnownMembers(names[1..], y);
      assert names == [names[0]] + names[1..];
      if y in MapKnown(names[1..]) {
        var x :| x in names[1..] && x in EntityTypeMapping && EntityTypeMapping[x] == y;
        assert x in names;
      }
    }
  }

  /** The filter drops exactly the names the table does not know. */
  lemma {:induction false} MapKnownLength(names: seq<string>)
    ensures |MapKnown(names)| == |names| <==> forall x :: x in names ==> x in EntityTypeMapping
    decreases |names|
  {
    if names != [] {
      MapKnownLength(names[1..]);
      assert names == [names[0]] + names[1..];
    }
  }

  /**
    `presidio_entities`: `None`, meaning every entity type, unless the caller
    named at least one type; then the mapped known names.
  */
  function PresidioEntities(entityTypes: Option<seq<string>>): (r: Option<seq<string>>)
    ensures r.None? <==> (entityTypes.None? || entityTypes.value == [])
    ensures r.Some? ==> r.value == MapKnown(entityTypes.value)
  {
    if entityTypes.Some? && |entityTypes.value| > 0 then Some(MapKnown(entityTypes.value)) else None
  }

  // ---------------------------------------------------------------------------
  // Properties of the two tables
  // ---------------------------------------------------------------------------

  /**
    Every Presidio type the mapping can produce has its own operator, so the
    `DEFAULT` operator, and its label `ENTITY`, only serve other types.
  */
  lemma MappedTypesHaveOperators(name: string)
    requires name in EntityTypeMapping
    ensures EntityTypeMapping[name] in OperatorLabels
    ensures EntityTypeMapping[name] != DefaultKey
    ensures LabelFor(EntityTypeMapping[name]) != "ENTITY"
  {
  }

  /** No two command-line names map to the same Presidio type. */
  lemma MappingInjective(a: string, b: string)
    requires a in EntityTypeMapping && b in EntityTypeMapping
    requires EntityTypeMapping[a] == EntityTypeMapping[b]
    ensures a == b
  {
  }
}
