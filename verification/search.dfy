/**
 The collection loop of `main`: every result that arrives from the pool
 adds one to the running count, and every match among them is formatted
 and appended to the output file. The pool, the clock and the console are
 not modelled; the file is the sequence of blocks appended to it.
 */
module Search {
  import opened Wrappers
  import opened Worker
  import opened Recorder

  /** The concatenation of `f` over `xs`, in order. */
  function FlatMap<T, U>(xs: seq<T>, f: T -> seq<U>): seq<U>
    decreases |xs|
  {
    if xs == [] then [] else f(xs[0]) + FlatMap(xs[1..], f)
  }

  lemma {:induction false} FlatMapAppend<T, U>(a: seq<T>, b: seq<T>, f: T -> seq<U>)
    ensures FlatMap(a + b, f) == FlatMap(a, f) + FlatMap(b, f)
    decreases |a|
  {
    if a == [] {
      assert a + b == b;
    } else {
      assert (a + b)[1..] == a[1..] + b;
      FlatMapAppend(a[1..], b, f);
    }
  }

  lemma FlatMapSingle<T, U>(x: T, f: T -> seq<U>)
    ensures FlatMap([x], f) == f(x)
  {
    assert [x][1..] == [];
  }

  /** Taking the same element out of two permutations of each other leaves permutations. */
  lemma RemoveMatching<T>(a: seq<T>, b: seq<T>, i: int)
    requires multiset(a) == multiset(b)
    requires a != [] && 0 <= i < |b| && b[i] == a[0]
    ensures multiset(a[1..]) == multiset(b[..i] + b[i + 1..])
  {
    assert a == [a[0]] + a[1..];
    assert b == b[..i] + [b[i]] + b[i + 1..];
    assert multiset(a[1..]) == multiset(a) - multiset{a[0]};
    assert multiset(b[..i] + b[i + 1..]) == multiset(b) - multiset{b[i]};
  }

  /** Concatenating `f` over a permutation gives a permutation of the concatenation. */
  lemma {:induction false} FlatMapPermutation<T, U>(a: seq<T>, b: seq<T>, f: T -> seq<U>)
    requires multiset(a) == multiset(b)
    ensures multiset(FlatMap(a, f)) == multiset(FlatMap(b, f))
    decreases |a|
  {
    if a == [] {
      assert |b| == |multiset(b)| == |multiset(a)| == 0;
    } else {
      var x := a[0];
      assert x in multiset(b);
      var i :| 0 <= i < |b| && b[i] == x;
      var before, after := b[..i], b[i + 1..];
      RemoveMatching(a, b, i);
      FlatMapPermutation(a[1..], before + after, f);
      assert b == before + [x] + after;
      FlatMapAppend(before + [x], after, f);
      FlatMapAppend(before, [x], f);
      FlatMapAppend(before, after, f);
      FlatMapSingle(x, f);
      var fb, fa := FlatMap(before, f), FlatMap(after, f);
      assert multiset(FlatMap(b, f)) == multiset(fb) + multiset(f(x)) + multiset(fa);
      assert multiset(FlatMap(a, f)) == multiset(f(x)) + multiset(fb + fa);
    }
  }

  /** The loop's state: `total_count` and the blocks appended so far. */
  datatype Tally = Tally(total: nat, written: seq<string>)

  /** The block one result contributes to the file: its record if it is a match, nothing otherwise. */
  function Entry(result: Option<Found>): seq<string> {
    match result
    case None => []
    case Some(f) => [Format(f.address, f.privateKey, f.mnemonic, f.matches)]
  }

  /** The blocks a sequence of results puts in the file, in arrival order. */
  function Saved(results: seq<Option<Found>>): seq<string> {
    FlatMap(results, Entry)
  }

  /** How many of the results are matches. */
  function MatchCount(results: seq<Option<Found>>): nat
    decreases |results|
  {
    if results == [] then 0 else (if results[0].Some? then 1 else 0) + MatchCount(results[1..])
  }

  lemma SavedAppend(a: seq<Option<Found>>, b: seq<Option<Found>>)
    ensures Saved(a + b) == Saved(a) + Saved(b)
  {
    FlatMapAppend(a, b, Entry);
  }

  /** There is one block per match and never more blocks than results. */
  lemma {:induction false} SavedCount(results: seq<Option<Found>>)
    ensures |Saved(results)| == MatchCount(results) <= |results|
    decreases |results|
  {
    if results != [] {
      SavedCount(results[1..]);
    }
  }

  /** One pass of the loop body: count the result, then save it if it is a match. */
  function Consume(t: Tally, result: Option<Found>): Tally {
    Tally(t.total + 1, t.written + Entry(result))
  }

  /**
   Consuming the results one by one, in arrival order: the count grows by
   exactly one per result, match or not, and the file gains exactly the
   records of the matches, in arrival order.
   */
  function ConsumeAll(t: Tally, results: seq<Option<Found>>): (r: Tally)
    ensures r.total == t.total + |results|
    ensures r.written == t.written + Saved(results)
    decreases |results|
  {
    if results == [] then t
    else
      var next := Consume(t, results[0]);
      assert Saved(results) == Entry(results[0]) + Saved(results[1..]);
      assert next.written + Saved(results[1..]) == t.written + Saved(results);
      ConsumeAll(next, results[1..])
  }

  lemma SeqAppendAssoc<T>(x: seq<T>, y: seq<T>, z: seq<T>)
    ensures (x + y) + z == x + (y + z)
  {
  }

  /**
   Batches compose: consuming one batch after another is consuming their
   concatenation, so the count after any number of whole rounds, or after a
   stop between two results of a round, is the number of results consumed.
   */
  lemma BatchesCompose(t: Tally, a: seq<Option<Found>>, b: seq<Option<Found>>)
    ensures ConsumeAll(t, a + b) == ConsumeAll(ConsumeAll(t, a), b)
  {
    SavedAppend(a, b);
    var whole, split := ConsumeAll(t, a + b), ConsumeAll(ConsumeAll(t, a), b);
    assert whole.total == split.total;
    var front := ConsumeAll(t, a);
    assert whole.written == t.written + (Saved(a) + Saved(b));
    assert split.written == front.written + Saved(b);
    assert front.written == t.written + Saved(a);
    SeqAppendAssoc(t.written, Saved(a), Saved(b));
  }

  /**
   Arrival order is irrelevant: however `imap_unordered` orders a round,
   it adds the same count and saves the same records, as many of them.
   */
  lemma ArrivalOrderKeepsCount(t: Tally, a: seq<Option<Found>>, b: seq<Option<Found>>)
    requires multiset(a) == multiset(b)
    ensures ConsumeAll(t, a).total == ConsumeAll(t, b).total
    ensures multiset(ConsumeAll(t, a).written) == multiset(ConsumeAll(t, b).written)
    ensures MatchCount(a) == MatchCount(b)
  {
    assert |a| == |multiset(a)| == |multiset(b)| == |b|;
    FlatMapPermutation(a, b, Entry);
    SavedCount(a);
    SavedCount(b);
    assert |Saved(a)| == |multiset(Saved(a))| == |multiset(Saved(b))| == |Saved(b)|;
  }

  /** `main`'s `for result in results` loop over one round. */
  method CollectRound(t: Tally, results: seq<Option<Found>>) returns (r: Tally)
    ensures r.total == t.total + |results|
    ensures r.written == t.written + Saved(results)
    ensures |r.written| == |t.written| + MatchCount(results)
  {
    r := t;
    var i := 0;
    while i < |results|
      invariant 0 <= i <= |results|
      invariant r.total == t.total + i
      invariant r.written == t.written + Saved(results[..i])
    {
      SavedAppend(results[..i], [results[i]]);
      assert results[..i + 1] == results[..i] + [results[i]];
      FlatMapSingle(results[i], Entry);
      r := Consume(r, results[i]);
      i := i + 1;
    }
    assert results[..i] == results;
    SavedCount(results);
  }
}
