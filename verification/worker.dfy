/**
 One search attempt (`generate_and_check_wallet`): the freshly generated
 identity is taken as an input, its address is normalised and matched, and
 the attempt yields the identity with its matches, or nothing.
 */
module Worker {
  import opened Wrappers
  import opened Text
  import opened Matcher

  /** A generated identity; key and mnemonic are opaque text. */
  datatype Identity = Identity(address: string, privateKey: string, mnemonic: string)

  /** What a successful attempt hands back: the identity and its match list. */
  datatype Found = Found(address: string, privateKey: string, mnemonic: string, matches: seq<Match>)

  /**
   The address body matched against: the address without its first two
   characters (the `0x` marker), lower-cased. Python slicing makes the
   body empty when the address is shorter than two characters.
   */
  function Normalize(address: string): (body: string)
    ensures |address| >= 2 ==> |body| == |address| - 2
    ensures |address| < 2 ==> body == ""
    ensures forall i :: 0 <= i < |body| ==> body[i] == LowerChar(address[i + 2])
  {
    if |address| >= 2 then Lower(address[2..]) else ""
  }

  /** The body carries no upper-case letter, so normalising is idempotent on it. */
  lemma NormalizedIsLower(address: string)
    ensures forall i :: 0 <= i < |Normalize(address)| ==> !IsUpper(Normalize(address)[i])
    ensures Lower(Normalize(address)) == Normalize(address)
  {
  }

  /** Two addresses that differ only in letter case (or in their marker) have the same body. */
  lemma NormalizeIgnoresCase(a1: string, a2: string)
    requires |a1| == |a2|
    requires forall i :: 2 <= i < |a1| ==> LowerChar(a1[i]) == LowerChar(a2[i])
    ensures Normalize(a1) == Normalize(a2)
  {
  }

  /** One attempt: `None` when no scan hits, otherwise the unchanged identity and its matches. */
  function Attempt(id: Identity, patterns: seq<string>): (r: Option<Found>)
    ensures r.None? <==>
      forall p :: p in patterns ==> !StartsWith(Normalize(id.address), p) && !EndsWith(Normalize(id.address), p)
    ensures r.Some? ==> r.value.address == id.address && r.value.privateKey == id.privateKey
                        && r.value.mnemonic == id.mnemonic
    ensures r.Some? ==> r.value.matches == FindMatches(Normalize(id.address), patterns)
    ensures patterns == [] ==> r.None?
  {
    var found := FindMatches(Normalize(id.address), patterns);
    if |found| > 0 then Some(Found(id.address, id.privateKey, id.mnemonic, found)) else None
  }

  /** A pattern holding an upper-case letter can never be reported: the body is lower-case. */
  lemma UpperCasePatternNeverMatches(id: Identity, patterns: seq<string>, k: int)
    requires 0 <= k < |patterns|
    requires exists c :: c in patterns[k] && IsUpper(c)
    ensures forall m :: Attempt(id, patterns).Some? && m in Attempt(id, patterns).value.matches
              ==> m.pattern != patterns[k]
  {
  }
}
