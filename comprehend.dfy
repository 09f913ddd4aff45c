/**
  `remove_pii` of redactdemo/comprehend.py: the entities reported by the
  recognizer are sorted by `BeginOffset`, largest first, and each
  `[BeginOffset, EndOffset)` slice of the text is replaced by the URL-safe
  base64 of the SHA-256 digest of that slice. The recognizer call is not
  modelled: its entity list is a parameter.
*/
module Comprehend {

  import opened Encoding

  /** One entity of the recognizer's response: `BeginOffset` and `EndOffset`. */
  datatype Entity = Entity(begin: nat, end: nat)

  // ---------------------------------------------------------------------------
  // Python slicing with non-negative indices: an index past the end is clamped
  // ---------------------------------------------------------------------------

  function Clamp(i: nat, n: nat): nat {
    if i <= n then i else n
  }

  /** `s[:i]` */
  function Before(s: string, i: nat): string {
    s[..Clamp(i, |s|)]
  }

  /** `s[i:]` */
  function From(s: string, i: nat): string {
    s[Clamp(i, |s|)..]
  }

  /** `s[i:j]`, which is empty when `j <= i` */
  function Slice(s: string, i: nat, j: nat): string {
    var lo, hi := Clamp(i, |s|), Clamp(j, |s|);
    if lo <= hi then s[lo..hi] else ""
  }

  // ---------------------------------------------------------------------------
  // The token and one replacement step
  // ---------------------------------------------------------------------------

  /**
    The replacement for `piece`: `base64.urlsafe_b64encode(sha256(piece))`.
    It depends on the replaced text alone, and always has 44 characters of
    the URL-safe alphabet, the last of them `=`.
  */
  function Token(hash: Sha256, piece: string): (t: string)
    ensures |t| == TokenLength
    ensures forall i :: 0 <= i < |t| ==> IsBase64UrlChar(t[i])
    ensures t[TokenLength - 1] == '='
  {
    DigestTokenShape(hash(piece));
    Base64Url(hash(piece))
  }

  const TokenLength: nat := 44

  /**
    One iteration of the loop: `s[:begin] + token(s[begin:end]) + s[end:]`.
    For an entity inside `s`, the text before `begin` and from `end` on is
    kept, and the token of the slice sits between them.
  */
  function Replace(s: string, e: Entity, hash: Sha256): (r: string)
    ensures e.begin <= e.end <= |s| ==>
      && |r| == |s| - (e.end - e.begin) + TokenLength
      && r[..e.begin] == s[..e.begin]
      && r[e.begin..e.begin + TokenLength] == Token(hash, s[e.begin..e.end])
      && r[e.begin + TokenLength..] == s[e.end..]
  {
    Before(s, e.begin) + Token(hash, Slice(s, e.begin, e.end)) + From(s, e.end)
  }

  /** The loop of `remove_pii` over an already ordered entity list. */
  function ReplaceAll(s: string, es: seq<Entity>, hash: Sha256): string
    decreases |es|
  {
    if es == [] then s else ReplaceAll(Replace(s, es[0], hash), es[1..], hash)
  }

  // ---------------------------------------------------------------------------
  // sorted(entities, key=BeginOffset, reverse=True)
  // ---------------------------------------------------------------------------

  ghost predicate SortedByBeginDescending(s: seq<Entity>) {
    forall i, j :: 0 <= i < j < |s| ==> s[i].begin >= s[j].begin
  }

  /** Inserts `e` before the first element whose begin is not larger. */
  function InsertByBegin(e: Entity, s: seq<Entity>): (r: seq<Entity>)
    ensures multiset(r) == multiset(s) + multiset{e}
    decreases |s|
  {
    if s == [] || e.begin >= s[0].begin then [e] + s
    else
      assert s == [s[0]] + s[1..];
      [s[0]] + InsertByBegin(e, s[1..])
  }

  /**
    Python's `sorted(..., reverse=True)` on the key `begin`: a stable sort,
    so entities with equal begins keep their input order (see `SortStable`).
  */
  function SortByBeginDescending(es: seq<Entity>): (r: seq<Entity>)
    ensures multiset(r) == multiset(es)
    decreases |es|
  {
    if es == [] then []
    else
      assert es == [es[0]] + es[1..];
      InsertByBegin(es[0], SortByBeginDescending(es[1..]))
  }

  lemma {:induction false} InsertSorted(e: Entity, s: seq<Entity>)
    requires SortedByBeginDescending(s)
    ensures SortedByBeginDescending(InsertByBegin(e, s))
    decreases |s|
  {
    var r := InsertByBegin(e, s);
    if s == [] || e.begin >= s[0].begin {
      forall i, j | 0 <= i < j < |r| ensures r[i].begin >= r[j].begin {
        assert r[j] == s[j - 1];
        if i > 0 {
          assert r[i] == s[i - 1];
        }
      }
    } else {
      var t := InsertByBegin(e, s[1..]);
      InsertSorted(e, s[1..]);
      assert r == [s[0]] + t;
      forall j | 0 <= j < |t| ensures s[0].begin >= t[j].begin {
        assert t[j] in multiset(t);
        if t[j] != e {
          assert t[j] in s[1..];
          var m :| 0 <= m < |s[1..]| && s[1..][m] == t[j];
          assert s[m + 1] == t[j];
        }
      }
      forall i, j | 0 <= i < j < |r| ensures r[i].begin >= r[j].begin {
        assert r[j] == t[j - 1];
        if i > 0 {
          assert r[i] == t[i - 1];
        }
      }
    }
  }

  /** The sort puts the entities in non-increasing order of begin. */
  lemma {:induction false} SortSorted(es: seq<Entity>)
    ensures SortedByBeginDescending(SortByBeginDescending(es))
    decreases |es|
  {
    if es != [] {
      SortSorted(es[1..]);
      InsertSorted(es[0], SortByBeginDescending(es[1..]));
    }
  }

  /** The entities of `s` whose begin is `k`, in order. */
  function WithBegin(s: seq<Entity>, k: nat): seq<Entity>
    decreases |s|
  {
    if s == [] then [] else (if s[0].begin == k then [s[0]] else []) + WithBegin(s[1..], k)
  }

  lemma {:induction false} InsertStable(e: Entity, s: seq<Entity>, k: nat)
    ensures WithBegin(InsertByBegin(e, s), k) == WithBegin([e] + s, k)
    decreases |s|
  {
    if s != [] && e.begin < s[0].begin {
      var t := InsertByBegin(e, s[1..]);
      var hs := if s[0].begin == k then [s[0]] else [];
      var he := if e.begin == k then [e] else [];
      InsertStable(e, s[1..], k);
      assert WithBegin(t, k) == he + WithBegin(s[1..], k) by {
        assert ([e] + s[1..])[1..] == s[1..];
      }
      assert WithBegin([s[0]] + t, k) == hs + WithBegin(t, k) by {
        assert ([s[0]] + t)[1..] == t;
      }
      assert WithBegin([e] + s, k) == he + WithBegin(s, k) by {
        assert ([e] + s)[1..] == s;
      }
      assert InsertByBegin(e, s) == [s[0]] + t;
      if hs == [] {
        assert WithBegin(s, k) == WithBegin(s[1..], k);
      } else {
        assert he == [];
      }
    }
  }

  /** Entities with equal begins come out in the order they came in. */
  lemma {:induction false} SortStable(es: seq<Entity>, k: nat)
    ensures WithBegin(SortByBeginDescending(es), k) == WithBegin(es, k)
    decreases |es|
  {
    if es != [] {
      var rest := SortByBeginDescending(es[1..]);
      SortStable(es[1..], k);
      InsertStable(es[0], rest, k);
      assert ([es[0]] + rest)[1..] == rest;
    }
  }

  // ---------------------------------------------------------------------------
  // What the rewrite computes for well-formed input
  // ---------------------------------------------------------------------------

  /** The two entities do not share a character. */
  predicate Apart(a: Entity, b: Entity) {
    a.end <= b.begin || b.end <= a.begin
  }

  predicate PairwiseApart(es: seq<Entity>) {
    forall i, j :: 0 <= i < j < |es| ==> Apart(es[i], es[j])
  }

  /** A non-empty span inside a text of length `n`. */
  predicate Inside(e: Entity, n: nat) {
    e.begin < e.end <= n
  }

  /** Every entity is a non-empty span of `text`, and no two overlap. */
  predicate WellFormed(text: string, es: seq<Entity>) {
    (forall e :: e in es ==> Inside(e, |text|)) && PairwiseApart(es)
  }

  /**
    Spans listed right to left within the first `n` characters: each one ends
    at or before the begin of every span listed before it.
  */
  predicate RightToLeft(d: seq<Entity>, n: nat) {
    (forall i :: 0 <= i < |d| ==> d[i].begin <= d[i].end <= n) &&
    (forall i, j :: 0 <= i < j < |d| ==> d[j].end <= d[i].begin)
  }

  /**
    The intended result, stated on the ORIGINAL text: the text outside the
    spans, in order, with each span replaced by the token of its original
    characters.
  */
  function RedactOriginal(text: string, d: seq<Entity>, hash: Sha256): string
    decreases |d|
  {
    if d == [] then text
    else
      RedactOriginal(Before(text, d[0].begin), d[1..], hash)
      + Token(hash, Slice(text, d[0].begin, d[0].end))
      + From(text, d[0].end)
  }

  /** Sum of `end - begin` over the entities. */
  function Covered(es: seq<Entity>): int
    decreases |es|
  {
    if es == [] then 0 else (es[0].end - es[0].begin) + Covered(es[1..])
  }

  /** One replacement inside `p` leaves whatever follows `p` alone. */
  lemma ReplaceInFront(p: string, q: string, e: Entity, hash: Sha256)
    requires e.begin <= e.end <= |p|
    ensures Replace(p + q, e, hash) == Replace(p, e, hash) + q
  {
    assert (p + q)[..e.begin] == p[..e.begin];
    assert (p + q)[e.begin..e.end] == p[e.begin..e.end];
    assert (p + q)[e.end..] == p[e.end..] + q;
  }

  /** A right-to-left list without its first span lies before that span's begin. */
  lemma RestBeforeFirst(d: seq<Entity>, n: nat)
    requires d != [] && RightToLeft(d, n)
    ensures RightToLeft(d[1..], d[0].begin)
  {
    forall i | 0 <= i < |d[1..]| ensures d[1..][i].end <= d[0].begin {
      assert d[1..][i] == d[i + 1];
    }
  }

  /** Rewriting text in front of `q` never touches `q`. */
  lemma {:induction false} ReplaceAllAppend(p: string, q: string, d: seq<Entity>, hash: Sha256)
    requires RightToLeft(d, |p|)
    ensures ReplaceAll(p + q, d, hash) == ReplaceAll(p, d, hash) + q
    decreases |d|
  {
    if d != [] {
      var p' := Replace(p, d[0], hash);
      ReplaceInFront(p, q, d[0], hash);
      RestBeforeFirst(d, |p|);
      ReplaceAllAppend(p', q, d[1..], hash);
    }
  }

  /**
    Right to left, every slice that is hashed is still the slice of the
    original text, so the loop computes `RedactOriginal`.
  */
  lemma {:induction false} ReplaceAllIsRedactOriginal(text: string, d: seq<Entity>, hash: Sha256)
    requires RightToLeft(d, |text|)
    ensures ReplaceAll(text, d, hash) == RedactOriginal(text, d, hash)
    decreases |d|
  {
    if d != [] {
      var e := d[0];
      var p := text[..e.begin];
      var q := Token(hash, text[e.begin..e.end]) + text[e.end..];
      assert Replace(text, e, hash) == p + q;
      RestBeforeFirst(d, |text|);
      ReplaceAllAppend(p, q, d[1..], hash);
      ReplaceAllIsRedactOriginal(p, d[1..], hash);
    }
  }

  /** The length of the result: each span's characters give way to one token. */
  lemma {:induction false} RedactOriginalLength(text: string, d: seq<Entity>, hash: Sha256)
    requires RightToLeft(d, |text|)
    ensures |RedactOriginal(text, d, hash)| == |text| - Covered(d) + TokenLength * |d|
    decreases |d|
  {
    if d != [] {
      var e := d[0];
      RestBeforeFirst(d, |text|);
      RedactOriginalLength(text[..e.begin], d[1..], hash);
    }
  }

  lemma {:induction false} InsertCovered(e: Entity, s: seq<Entity>)
    ensures Covered(InsertByBegin(e, s)) == (e.end - e.begin) + Covered(s)
    decreases |s|
  {
    if s != [] && e.begin < s[0].begin {
      InsertCovered(e, s[1..]);
      assert InsertByBegin(e, s)[1..] == InsertByBegin(e, s[1..]);
    }
  }

  /** Sorting does not change the total length of the spans. */
  lemma {:induction false} SortCovered(es: seq<Entity>)
    ensures Covered(SortByBeginDescending(es)) == Covered(es)
    decreases |es|
  {
    if es != [] {
      SortCovered(es[1..]);
      InsertCovered(es[0], SortByBeginDescending(es[1..]));
    }
  }

  lemma {:induction false} InsertKeepsApart(e: Entity, s: seq<Entity>)
    requires PairwiseApart(s)
    requires forall x :: x in s ==> Apart(e, x)
    ensures PairwiseApart(InsertByBegin(e, s))
    decreases |s|
  {
    var r := InsertByBegin(e, s);
    if s == [] || e.begin >= s[0].begin {
      forall i, j | 0 <= i < j < |r| ensures Apart(r[i], r[j]) {
        assert r[j] == s[j - 1];
        if i > 0 {
          assert r[i] == s[i - 1];
        }
      }
    } else {
      var t := InsertByBegin(e, s[1..]);
      InsertKeepsApart(e, s[1..]);
      assert r == [s[0]] + t;
      forall j | 0 <= j < |t| ensures Apart(s[0], t[j]) {
        assert t[j] in multiset(t);
        if t[j] == e {
          assert s[0] in s;
        } else {
          assert t[j] in s[1..];
          var m :| 0 <= m < |s[1..]| && s[1..][m] == t[j];
          assert s[m + 1] == t[j];
        }
      }
      forall i, j | 0 <= i < j < |r| ensures Apart(r[i], r[j]) {
        assert r[j] == t[j - 1];
        if i > 0 {
          assert r[i] == t[i - 1];
        }
      }
    }
  }

  /** Sorting keeps pairwise non-overlap. */
  lemma {:induction false} SortKeepsApart(es: seq<Entity>)
    requires PairwiseApart(es)
    ensures PairwiseApart(SortByBeginDescending(es))
    decreases |es|
  {
    if es != [] {
      var rest := SortByBeginDescending(es[1..]);
      assert PairwiseApart(es[1..]) by {
        forall i, j | 0 <= i < j < |es[1..]| ensures Apart(es[1..][i], es[1..][j]) {
          assert es[1..][i] == es[i + 1] && es[1..][j] == es[j + 1];
        }
      }
      SortKeepsApart(es[1..]);
      forall x | x in rest ensures Apart(es[0], x) {
        assert x in multiset(rest);
        var j :| 0 <= j < |es[1..]| && es[1..][j] == x;
        assert es[j + 1] == x;
      }
      InsertKeepsApart(es[0], rest);
    }
  }

  /** Well-formed entities, once sorted, are a right-to-left span list. */
  lemma SortedIsRightToLeft(text: string, es: seq<Entity>)
    requires WellFormed(text, es)
    ensures RightToLeft(SortByBeginDescending(es), |text|)
  {
    var d := SortByBeginDescending(es);
    SortKeepsApart(es);
    SortSorted(es);
    forall i | 0 <= i < |d| ensures Inside(d[i], |text|) {
      assert d[i] in multiset(d);
    }
    forall i, j | 0 <= i < j < |d| ensures d[j].end <= d[i].begin {
      assert Apart(d[i], d[j]);
      assert Inside(d[i], |text|) && Inside(d[j], |text|);
    }
  }

  /**
    Where the outer entity's characters start to survive when `inner` lies
    strictly inside `outer`: the outer slice is taken from the text after the
    inner replacement, so it ends `TokenLength - (inner.end - inner.begin)`
    characters early, but never before the inner token's end.
  */
  function ClearFrom(outer: Entity, inner: Entity): int {
    if outer.end <= inner.begin + TokenLength then inner.end
    else outer.end + (inner.end - inner.begin) - TokenLength
  }

  /**
    Why the entities must not overlap: when an entity shorter than a token
    starts inside another and ends before it, the inner one is replaced first,
    the outer slice then ends early, and the output still ends with the
    original text from `ClearFrom(outer, inner)` on, which includes the
    outer entity's last characters.
  */
  lemma NestedEntitiesKeepOuterTail(text: string, outer: Entity, inner: Entity, hash: Sha256)
    requires outer.begin < inner.begin <= inner.end < outer.end <= |text|
    requires inner.end - inner.begin < TokenLength
    ensures var out := ReplaceAll(text, SortByBeginDescending([outer, inner]), hash);
      var k := ClearFrom(outer, inner);
      && inner.end <= k < outer.end
      && |text| - k <= |out|
      && out[|out| - (|text| - k)..] == text[k..]
  {
    SortPairDescending(outer, inner);
    ReplaceAllPair(text, inner, outer, hash);
    var ib, ie, ob, oe := inner.begin, inner.end, outer.begin, outer.end;
    var k := ClearFrom(outer, inner);
    var s1 := Replace(text, inner, hash);
    assert |s1| == |text| - (ie - ib) + TokenLength;
    assert s1[ib + TokenLength..] == text[ie..];
    var s2 := Replace(s1, outer, hash);
    assert s2[ob + TokenLength..] == s1[oe..];
    var n := |text| - k;
    // The last n characters of s1 are text[k..].
    if oe <= ib + TokenLength {
      assert s1[|s1| - n..] == s1[ib + TokenLength..];
    } else {
      assert s1[oe..] == s1[ib + TokenLength..][oe - ib - TokenLength..];
      assert text[k..] == text[ie..][oe - ib - TokenLength..];
    }
    assert s1[|s1| - n..] == text[k..];
    SuffixOfSuffix(s2, ob + TokenLength, s1, oe, n);
  }

  /** When `a[i..] == b[j..]`, the two end with the same `n` characters. */
  lemma SuffixOfSuffix(a: string, i: nat, b: string, j: nat, n: nat)
    requires i <= |a| && j <= |b| && a[i..] == b[j..]
    requires n <= |b| - j
    ensures a[|a| - n..] == b[|b| - n..]
  {
    assert a[|a| - n..] == a[i..][|a| - i - n..];
    assert b[|b| - n..] == b[j..][|b| - j - n..];
  }

  /** Two entities with different begins come out of the sort largest begin first. */
  lemma SortPairDescending(a: Entity, b: Entity)
    requires a.begin < b.begin
    ensures SortByBeginDescending([a, b]) == [b, a]
  {
    assert [a, b][1..] == [b];
    assert [b][1..] == [];
    assert SortByBeginDescending([b]) == InsertByBegin(b, []) == [b];
    assert InsertByBegin(a, [b]) == [b] + InsertByBegin(a, []);
  }

  lemma ReplaceAllPair(s: string, a: Entity, b: Entity, hash: Sha256)
    ensures ReplaceAll(s, [a, b], hash) == Replace(Replace(s, a, hash), b, hash)
  {
    var s1 := Replace(s, a, hash);
    assert [a, b][1..] == [b];
    assert ReplaceAll(s, [a, b], hash) == ReplaceAll(s1, [b], hash);
    assert [b][1..] == [];
    assert ReplaceAll(s1, [b], hash) == ReplaceAll(Replace(s1, b, hash), [], hash);
  }

  /** `remove_pii`, with the recognizer's response passed in as `entities`. */
  method RemovePii(text: string, entities: seq<Entity>, hash: Sha256) returns (redacted: string)
    ensures redacted == ReplaceAll(text, SortByBeginDescending(entities), hash)
    ensures entities == [] ==> redacted == text
    ensures WellFormed(text, entities) ==>
      && redacted == RedactOriginal(text, SortByBeginDescending(entities), hash)
      && |redacted| == |text| - Covered(entities) + TokenLength * |entities|
  {
    redacted := text;
    var sorted := SortByBeginDescending(entities);
    for k := 0 to |sorted|
      invariant ReplaceAll(redacted, sorted[k..], hash) == ReplaceAll(text, sorted, hash)
    {
      var startOffset, endOffset := sorted[k].begin, sorted[k].end;
      var textToHash := Slice(redacted, startOffset, endOffset);
      var hashed := Token(hash, textToHash);
      redacted := Before(redacted, startOffset) + hashed + From(redacted, endOffset);
      assert sorted[k..][1..] == sorted[k + 1..];
    }
    if WellFormed(text, entities) {
      SortedIsRightToLeft(text, entities);
      ReplaceAllIsRedactOriginal(text, sorted, hash);
      RedactOriginalLength(text, sorted, hash);
      SortCovered(entities);
      assert |sorted| == |multiset(sorted)| == |entities|;
    }
  }
}
