/**
 The configured pattern list and the matcher's behaviour on it for a few
 concrete bodies, including the two-sided case.
 */
module Instances {
  import opened Wrappers
  import opened Matcher
  import opened Worker
  import opened Recorder

  /** `PATTERNS`: runs of eight, seven and six `8`s, longest first. */
  const Patterns: seq<string> := ["88888888", "8888888", "888888"]

  /** The configured list is in non-increasing length order, so first hit is longest hit. */
  lemma PatternsDescending()
    ensures DescendingLength(Patterns)
  {
  }

  /** A body starting with eight `8`s and ending with exactly six reports both ends. */
  lemma BothEnds()
    ensures FindMatches("888888881234888888", Patterns)
         == [Match("88888888", Prefix), Match("888888", Suffix)]
  {
  }

  /** Only the longest prefix is reported, and a non-matching end reports nothing. */
  lemma PrefixOnly()
    ensures FindMatches("888888889999", Patterns) == [Match("88888888", Prefix)]
  {
  }

  /** The body of a checksummed (mixed-case) address. */
  lemma NormalizeExample()
    ensures Normalize("0x88888888AbC1888888")
         == "88888888abc1888888"
  {
  }

  /** The matches found in that body. */
  lemma MixedCaseBody()
    ensures FindMatches("88888888abc1888888", Patterns)
         == [Match("88888888", Prefix), Match("888888", Suffix)]
  {
  }

  /** A full attempt on a mixed-case address keeps the address as given and finds both ends. */
  lemma FullAttempt()
    ensures Attempt(Identity("0x88888888AbC1888888", "k", "w1 w2"), Patterns)
         == Some(Found("0x88888888AbC1888888", "k", "w1 w2", [Match("88888888", Prefix), Match("888888", Suffix)]))
  {
    NormalizeExample();
    MixedCaseBody();
  }

  lemma RenderedLongPrefix()
    ensures Render(Match("88888888", Prefix)) == "88888888 (Prefix)"
  {
    assert Tag(Prefix) == " (Prefix)";
  }

  lemma RenderedShortSuffix()
    ensures Render(Match("888888", Suffix)) == "888888 (Suffix)"
  {
    assert Tag(Suffix) == " (Suffix)";
  }

  /** The detail line saved for a two-sided match. */
  lemma TwoSidedDetails()
    ensures Details([Match("88888888", Prefix), Match("888888", Suffix)])
         == "88888888 (Prefix) & 888888 (Suffix)"
  {
    RenderedLongPrefix();
    RenderedShortSuffix();
  }
}
