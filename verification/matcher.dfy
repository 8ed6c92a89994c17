/**
 The pattern matcher of `generate_and_check_wallet`: two independent
 first-hit scans over an ordered pattern list, one with `startswith` and
 one with `endswith`, each stopping at its first hit.
 */
module Matcher {
  import opened Wrappers
  import opened Text

  /** Which end of the address body a pattern was found at. */
  datatype Side = Prefix | Suffix

  /** One reported match: the pattern and the end it sits at. */
  datatype Match = Match(pattern: string, side: Side)

  /** The test a scan applies: `startswith` for Prefix, `endswith` for Suffix. */
  predicate Hits(body: string, p: string, side: Side) {
    match side
    case Prefix => StartsWith(body, p)
    case Suffix => EndsWith(body, p)
  }

  /** Index `i` holds a hit on `side` and no earlier index does. */
  predicate FirstHitAt(body: string, patterns: seq<string>, side: Side, i: int) {
    && 0 <= i < |patterns|
    && Hits(body, patterns[i], side)
    && forall j :: 0 <= j < i ==> !Hits(body, patterns[j], side)
  }

  /** No pattern of the list hits `side` of the body. */
  predicate NoHit(body: string, patterns: seq<string>, side: Side) {
    forall j :: 0 <= j < |patterns| ==> !Hits(body, patterns[j], side)
  }

  /** The first index at or after `k` whose pattern hits `side`, if any. */
  function FirstHitFrom(body: string, patterns: seq<string>, side: Side, k: nat): (r: Option<nat>)
    requires k <= |patterns|
    ensures r.Some? ==> k <= r.value < |patterns| && Hits(body, patterns[r.value], side)
    ensures r.Some? ==> forall j :: k <= j < r.value ==> !Hits(body, patterns[j], side)
    ensures r.None? <==> forall j :: k <= j < |patterns| ==> !Hits(body, patterns[j], side)
    decreases |patterns| - k
  {
    if k == |patterns| then None
    else if Hits(body, patterns[k], side) then Some(k)
    else FirstHitFrom(body, patterns, side, k + 1)
  }

  /** The index a scan of the whole list stops at, if it stops at all. */
  function FirstHit(body: string, patterns: seq<string>, side: Side): (r: Option<nat>)
    ensures r.Some? ==> FirstHitAt(body, patterns, side, r.value)
    ensures r.None? <==> NoHit(body, patterns, side)
  {
    FirstHitFrom(body, patterns, side, 0)
  }

  /**
   One scan: the first hit on `side` as a match, or nothing. It reports at
   most one entry, reports none exactly when no pattern hits, and the entry
   it reports is the first hit's pattern on that side.
   */
  function Scan(body: string, patterns: seq<string>, side: Side): (r: seq<Match>)
    ensures |r| <= 1
    ensures r == [] <==> NoHit(body, patterns, side)
    ensures r != [] ==> r[0].side == side
    ensures r != [] ==> exists i :: FirstHitAt(body, patterns, side, i) && patterns[i] == r[0].pattern
  {
    match FirstHit(body, patterns, side)
    case None => []
    case Some(i) => [Match(patterns[i], side)]
  }

  /** The match list: the prefix scan's entry followed by the suffix scan's entry. */
  function FindMatches(body: string, patterns: seq<string>): (r: seq<Match>)
    ensures |r| <= 2
    ensures |r| == (if NoHit(body, patterns, Prefix) then 0 else 1)
                 + (if NoHit(body, patterns, Suffix) then 0 else 1)
    ensures forall k :: 0 <= k < |r| ==> r[k].pattern in patterns && Hits(body, r[k].pattern, r[k].side)
    ensures forall k, l :: 0 <= k < l < |r| ==> r[k].side == Prefix && r[l].side == Suffix
  {
    Scan(body, patterns, Prefix) + Scan(body, patterns, Suffix)
  }

  /**
   The program's two append-and-break loops: scan for a prefix, append and
   break at the first hit; then the same for the suffix.
   */
  method CheckBody(body: string, patterns: seq<string>) returns (found: seq<Match>)
    ensures found == FindMatches(body, patterns)
  {
    found := [];
    var i := 0;
    while i < |patterns|
      invariant 0 <= i <= |patterns|
      invariant found == []
      invariant forall j :: 0 <= j < i ==> !StartsWith(body, patterns[j])
    {
      if StartsWith(body, patterns[i]) {
        found := found + [Match(patterns[i], Prefix)];
        break;
      }
      i := i + 1;
    }
    ghost var prefixPart := found;
    if i < |patterns| {
      FirstHitUnique(body, patterns, Prefix, i);
    }
    i := 0;
    while i < |patterns|
      invariant 0 <= i <= |patterns|
      invariant found == prefixPart
      invariant forall j :: 0 <= j < i ==> !EndsWith(body, patterns[j])
    {
      if EndsWith(body, patterns[i]) {
        found := found + [Match(patterns[i], Suffix)];
        break;
      }
      i := i + 1;
    }
    if i < |patterns| {
      FirstHitUnique(body, patterns, Suffix, i);
    }
  }

  /** Whenever an index is a first hit, it is the one the scan reports. */
  lemma FirstHitUnique(body: string, patterns: seq<string>, side: Side, i: int)
    requires FirstHitAt(body, patterns, side, i)
    ensures FirstHit(body, patterns, side) == Some(i)
  {
  }

  /** Soundness and first-hit rule: every reported entry is the first hit of its side. */
  lemma ReportedIsFirstHit(body: string, patterns: seq<string>, side: Side)
    ensures forall m :: m in FindMatches(body, patterns) && m.side == side ==>
              exists i :: FirstHitAt(body, patterns, side, i) && patterns[i] == m.pattern
  {
  }

  /** Completeness: the first hit of a side is reported, and it is that side's only entry. */
  lemma FirstHitIsReported(body: string, patterns: seq<string>, side: Side, i: int)
    requires FirstHitAt(body, patterns, side, i)
    ensures Match(patterns[i], side) in FindMatches(body, patterns)
    ensures forall m :: m in FindMatches(body, patterns) && m.side == side ==> m.pattern == patterns[i]
  {
  }

  /** The list is ordered by non-increasing length, as the configured list is. */
  predicate DescendingLength(patterns: seq<string>) {
    forall i, j :: 0 <= i < j < |patterns| ==> |patterns[i]| >= |patterns[j]|
  }

  /**
   With a list in non-increasing length order, first hit means longest hit:
   every pattern that hits the same end is no longer than the reported one
   and sits at that same end of it.
   */
  lemma LongestHit(body: string, patterns: seq<string>, m: Match)
    requires DescendingLength(patterns)
    requires m in FindMatches(body, patterns)
    ensures forall j :: 0 <= j < |patterns| && Hits(body, patterns[j], m.side) ==>
              |patterns[j]| <= |m.pattern| && Hits(m.pattern, patterns[j], m.side)
  {
    ReportedIsFirstHit(body, patterns, m.side);
    var i :| FirstHitAt(body, patterns, m.side, i) && patterns[i] == m.pattern;
    forall j | 0 <= j < |patterns| && Hits(body, patterns[j], m.side)
      ensures |patterns[j]| <= |m.pattern| && Hits(m.pattern, patterns[j], m.side)
    {
      assert i <= j;
      HitWithinHit(body, m.pattern, patterns[j], m.side);
    }
  }

  /** A shorter pattern hitting the same end of the body as a longer one hits that end of the longer one. */
  lemma HitWithinHit(body: string, long: string, short: string, side: Side)
    requires Hits(body, long, side) && Hits(body, short, side) && |short| <= |long|
    ensures Hits(long, short, side)
  {
    match side
    case Prefix =>
      assert long[..|short|] == body[..|long|][..|short|];
    case Suffix =>
      assert long[|long| - |short|..] == body[|body| - |long|..][|long| - |short|..];
  }

  /**
   Independence: a scan sees a body only through its own test, so two bodies
   that agree on every `startswith` (resp. `endswith`) get the same Prefix
   (resp. Suffix) entry, whatever their other end looks like.
   */
  lemma SidesIndependent(b1: string, b2: string, patterns: seq<string>, side: Side)
    requires forall j :: 0 <= j < |patterns| ==> (Hits(b1, patterns[j], side) <==> Hits(b2, patterns[j], side))
    ensures Scan(b1, patterns, side) == Scan(b2, patterns, side)
  {
  }

  /** An empty pattern list never matches anything. */
  lemma EmptyListNeverMatches(body: string)
    ensures FindMatches(body, []) == []
  {
  }
}
