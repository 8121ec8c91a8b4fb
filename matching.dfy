/**
 The token-coverage matcher `contains_most_words`: a candidate text retells a
 reference text when enough of the reference's tokens occur among the
 candidate's tokens.
 */
module Matching {
  import opened ArabicText

  /** The default `threshold` argument. */
  const DefaultThreshold: real := 0.8

  /** `sum(1 for tok in ref_tokens if tok in cand_tokens)`: the reference
      tokens, repeats included, that occur anywhere in the candidate list. */
  function Shared(refTokens: seq<string>, candTokens: seq<string>): (n: nat)
    ensures n <= |refTokens|
  {
    if refTokens == [] then 0
    else
      var last := refTokens[|refTokens| - 1];
      Shared(refTokens[..|refTokens| - 1], candTokens) + (if last in candTokens then 1 else 0)
  }

  /** The positions of the reference list whose token the candidate has. */
  function SharedPositions(refTokens: seq<string>, candTokens: seq<string>): set<nat> {
    set i: nat | i < |refTokens| && refTokens[i] in candTokens
  }

  /** The test of `contains_most_words` once both texts are tokenized:
      false for an empty reference list, otherwise whether the covered share
      of the reference tokens reaches the threshold. */
  function Covers(refTokens: seq<string>, candTokens: seq<string>, threshold: real): (b: bool)
    ensures refTokens == [] ==> !b
  {
    if refTokens == [] then false
    else (Shared(refTokens, candTokens) as real) / (|refTokens| as real) >= threshold
  }

  /** `contains_most_words(reference, candidate, threshold)`. */
  function ContainsMostWords(reference: string, candidate: string, threshold: real): (b: bool)
    ensures Tokenize(reference) == [] ==> !b
  {
    Covers(Tokenize(reference), Tokenize(candidate), threshold)
  }

  // ---------------------------------------------------------------------
  // The shared count
  // ---------------------------------------------------------------------

  /** The shared count is the number of reference positions whose token
      occurs in the candidate. */
  lemma {:induction false} SharedCountsPositions(refTokens: seq<string>, candTokens: seq<string>)
    ensures Shared(refTokens, candTokens) == |SharedPositions(refTokens, candTokens)|
  {
    if refTokens != [] {
      var n := |refTokens| - 1;
      var init := refTokens[..n];
      SharedCountsPositions(init, candTokens);
      var before := SharedPositions(init, candTokens);
      assert forall i: nat :: i < n ==> init[i] == refTokens[i];
      if refTokens[n] in candTokens {
        assert SharedPositions(refTokens, candTokens) == before + {n};
      } else {
        assert SharedPositions(refTokens, candTokens) == before;
      }
    }
  }

  /** Every reference token is covered exactly when the count is the whole
      length. */
  lemma {:induction false} SharedAllIff(refTokens: seq<string>, candTokens: seq<string>)
    ensures Shared(refTokens, candTokens) == |refTokens|
      <==> forall i :: 0 <= i < |refTokens| ==> refTokens[i] in candTokens
  {
    if refTokens != [] {
      var n := |refTokens| - 1;
      var init := refTokens[..n];
      SharedAllIff(init, candTokens);
      assert forall i :: 0 <= i < n ==> init[i] == refTokens[i];
    }
  }

  /** A candidate with more distinct tokens shares at least as many. */
  lemma {:induction false} SharedMonotone(refTokens: seq<string>, c1: seq<string>, c2: seq<string>)
    requires forall t :: t in c1 ==> t in c2
    ensures Shared(refTokens, c1) <= Shared(refTokens, c2)
  {
    if refTokens != [] {
      SharedMonotone(refTokens[..|refTokens| - 1], c1, c2);
    }
  }

  // ---------------------------------------------------------------------
  // The matcher
  // ---------------------------------------------------------------------

  /** The match holds iff the reference has tokens and the shared count
      reaches `threshold` times the number of reference tokens. */
  lemma CoverageRule(refTokens: seq<string>, candTokens: seq<string>, threshold: real)
    ensures Covers(refTokens, candTokens, threshold)
      <==> refTokens != [] && Shared(refTokens, candTokens) as real >= threshold * |refTokens| as real
  {
    if refTokens != [] {
      DivAtLeast(Shared(refTokens, candTokens) as real, |refTokens| as real, threshold);
    }
  }

  lemma DivAtLeast(x: real, n: real, t: real)
    requires n > 0.0
    ensures x / n >= t <==> x >= t * n
  {
    var q := x / n;
    assert q * n == x;
    if q >= t {
      assert q * n >= t * n;
    } else {
      assert q * n < t * n;
    }
  }

  /** With the default threshold the rule is `5 * shared >= 4 * len(ref)`. */
  lemma DefaultThresholdRule(refTokens: seq<string>, candTokens: seq<string>)
    ensures Covers(refTokens, candTokens, DefaultThreshold)
      <==> refTokens != [] && 5 * Shared(refTokens, candTokens) >= 4 * |refTokens|
  {
    CoverageRule(refTokens, candTokens, DefaultThreshold);
  }

  /** A token list that is not empty covers itself at any threshold up to 1. */
  lemma SelfCover(tokens: seq<string>, threshold: real)
    requires tokens != [] && threshold <= 1.0
    ensures Covers(tokens, tokens, threshold)
  {
    SharedAllIff(tokens, tokens);
    CoverageRule(tokens, tokens, threshold);
  }

  /** Adding tokens to the candidate never turns a match into a non-match. */
  lemma CoverMonotone(refTokens: seq<string>, c1: seq<string>, c2: seq<string>, threshold: real)
    requires forall t :: t in c1 ==> t in c2
    ensures Covers(refTokens, c1, threshold) ==> Covers(refTokens, c2, threshold)
  {
    SharedMonotone(refTokens, c1, c2);
    CoverageRule(refTokens, c1, threshold);
    CoverageRule(refTokens, c2, threshold);
  }

  /** A lower threshold accepts everything a higher one accepts. */
  lemma ThresholdMonotone(refTokens: seq<string>, candTokens: seq<string>, lower: real, higher: real)
    requires lower <= higher
    ensures Covers(refTokens, candTokens, higher) ==> Covers(refTokens, candTokens, lower)
  {
  }

  // ---------------------------------------------------------------------
  // The matcher on texts
  // ---------------------------------------------------------------------

  /** A text with at least one token matches itself at any threshold up
      to 1. */
  lemma SelfMatch(text: string, threshold: real)
    requires Tokenize(text) != [] && threshold <= 1.0
    ensures ContainsMostWords(text, text, threshold)
  {
    SelfCover(Tokenize(text), threshold);
  }

  /** Only the set of candidate tokens matters, not their order or how often
      they repeat; a candidate with more tokens matches whenever one with
      fewer does. */
  lemma CandidateTokenSetOnly(reference: string, c1: string, c2: string, threshold: real)
    requires forall t :: t in Tokenize(c1) ==> t in Tokenize(c2)
    ensures ContainsMostWords(reference, c1, threshold) ==> ContainsMostWords(reference, c2, threshold)
    ensures (forall t :: t in Tokenize(c2) ==> t in Tokenize(c1))
      ==> ContainsMostWords(reference, c1, threshold) == ContainsMostWords(reference, c2, threshold)
  {
    CoverMonotone(Tokenize(reference), Tokenize(c1), Tokenize(c2), threshold);
    if forall t :: t in Tokenize(c2) ==> t in Tokenize(c1) {
      CoverMonotone(Tokenize(reference), Tokenize(c2), Tokenize(c1), threshold);
    }
  }

  /** The search loop passes the already normalized query as the reference;
      since normalizing is idempotent this matches exactly as the raw query
      would. The same holds for the candidate. */
  lemma NormalizedInputsMatchAlike(reference: string, candidate: string, threshold: real)
    ensures ContainsMostWords(Normalize(reference), candidate, threshold)
      == ContainsMostWords(reference, candidate, threshold)
    ensures ContainsMostWords(reference, Normalize(candidate), threshold)
      == ContainsMostWords(reference, candidate, threshold)
  {
    TokenizeNormalized(reference);
    TokenizeNormalized(candidate);
  }
}
