/** The tally of one poll: the dict {option: count} that the page keeps for a
    question. A Python dict remembers the order in which its keys were first
    inserted, so a tally is an ordered list of distinct options together with
    the count of each. */
module Tallies {

  datatype Tally = Tally(options: seq<string>, counts: map<string, int>)

  ghost predicate Distinct(s: seq<string>) {
    forall i, j :: 0 <= i < j < |s| ==> s[i] != s[j]
  }

  /** The options are the dict's keys, each listed once. */
  ghost predicate WellFormed(t: Tally) {
    && Distinct(t.options)
    && (forall o :: o in t.options ==> o in t.counts)
    && (forall o :: o in t.counts ==> o in t.options)
  }

  ghost predicate NonNegative(t: Tally) {
    forall o :: o in t.counts ==> t.counts[o] >= 0
  }

  /** The keys of {opt: 0 for opt in options}, in insertion order: each
      option where it first occurs, later repeats dropped. */
  function Dedup(s: seq<string>): (r: seq<string>)
    ensures Distinct(r)
    ensures forall x :: x in r <==> x in s
    ensures |r| <= |s|
    ensures Distinct(s) ==> r == s
  {
    if s == [] then
      []
    else
      var init := Dedup(s[..|s| - 1]);
      var last := s[|s| - 1];
      assert s == s[..|s| - 1] + [last];
      if last in init then init else init + [last]
  }

  /** r lists strings of s in the order of their first occurrence: r[i]
      sits at position idx[i] of s, no earlier position of s holds it, and
      the positions increase. */
  ghost predicate FirstOccurrences(s: seq<string>, r: seq<string>, idx: seq<nat>) {
    && |idx| == |r|
    && (forall i :: 0 <= i < |idx| ==> idx[i] < |s| && s[idx[i]] == r[i])
    && (forall i, k :: 0 <= i < |idx| && 0 <= k < idx[i] ==> s[k] != r[i])
    && (forall i, j :: 0 <= i < j < |idx| ==> idx[i] < idx[j])
  }

  /** A string added at the end of s leaves earlier first occurrences as
      they were. */
  lemma FirstOccurrencesExtend(s: seq<string>, r: seq<string>, idx: seq<nat>, x: string)
    requires FirstOccurrences(s, r, idx)
    ensures FirstOccurrences(s + [x], r, idx)
  {
  }

  /** A string added at the end of s that s does not hold is a new first
      occurrence, at position |s|. */
  lemma FirstOccurrencesAdd(s: seq<string>, r: seq<string>, idx: seq<nat>, x: string)
    requires FirstOccurrences(s, r, idx)
    requires forall k :: 0 <= k < |s| ==> s[k] != x
    ensures FirstOccurrences(s + [x], r + [x], idx + [|s|])
  {
  }

  /** The order Dedup keeps: each option appears where it first occurs in
      s, and later repeats are dropped. */
  lemma {:induction false} DedupFirstOccurrences(s: seq<string>) returns (idx: seq<nat>)
    ensures FirstOccurrences(s, Dedup(s), idx)
  {
    if s == [] {
      return [];
    }
    var n := |s| - 1;
    var init, last := s[..n], s[n];
    assert s == init + [last];
    var kept := Dedup(init);
    var prior := DedupFirstOccurrences(init);
    if last in kept {
      assert Dedup(s) == kept;
      FirstOccurrencesExtend(init, kept, prior, last);
      idx := prior;
    } else {
      assert Dedup(s) == kept + [last];
      assert forall k :: 0 <= k < n ==> init[k] in init;
      FirstOccurrencesAdd(init, kept, prior, last);
      idx := prior + [n];
    }
  }

  /** The all-zero tally {opt: 0 for opt in options}: one entry per distinct
      option, every count 0. */
  function Zeroed(options: seq<string>): (t: Tally)
    ensures WellFormed(t) && NonNegative(t)
    ensures forall o :: o in t.counts <==> o in options
    ensures forall o :: o in t.counts ==> t.counts[o] == 0
  {
    Tally(Dedup(options), map o | o in options :: 0)
  }

  /** The sum of counts[k] over the keys listed. */
  function SumOver(keys: seq<string>, counts: map<string, int>): (sum: int)
    requires forall k :: k in keys ==> k in counts
  {
    if keys == [] then 0 else counts[keys[0]] + SumOver(keys[1..], counts)
  }

  /** sum(votes.values()): the total number of votes cast in the poll. It
      is never negative while no count is; TotalBounds says more. */
  function Total(t: Tally): (total: int)
    requires WellFormed(t)
    ensures NonNegative(t) ==> total >= 0
  {
    SumOverNonNegative(t.options, t.counts);
    SumOver(t.options, t.counts)
  }

  /** votes[opt] += 1: the chosen count goes up by one, every other count and
      the option list stay, and a well-formed tally with no negative count
      stays so. IncrementTotal gives the effect on the total. */
  function Increment(t: Tally, opt: string): (r: Tally)
    requires opt in t.counts
    ensures r.options == t.options && r.counts.Keys == t.counts.Keys
    ensures r.counts[opt] == t.counts[opt] + 1
    ensures forall o :: o in t.counts && o != opt ==> r.counts[o] == t.counts[o]
    ensures WellFormed(t) ==> WellFormed(r)
    ensures NonNegative(t) ==> NonNegative(r)
  {
    Tally(t.options, t.counts[opt := t.counts[opt] + 1])
  }

  /** With no negative count, the sum is at least every single count it adds. */
  lemma {:induction false} SumOverBounds(keys: seq<string>, counts: map<string, int>)
    requires forall k :: k in keys ==> k in counts && counts[k] >= 0
    ensures SumOver(keys, counts) >= 0
    ensures forall k :: k in keys ==> counts[k] <= SumOver(keys, counts)
  {
    if keys != [] {
      SumOverBounds(keys[1..], counts);
      assert forall k :: k in keys ==> k == keys[0] || k in keys[1..];
    }
  }

  /** A sum of counts none of which is negative is not negative. */
  lemma SumOverNonNegative(keys: seq<string>, counts: map<string, int>)
    requires forall k :: k in keys ==> k in counts
    ensures (forall k :: k in keys ==> counts[k] >= 0) ==> SumOver(keys, counts) >= 0
  {
    if forall k :: k in keys ==> counts[k] >= 0 {
      SumOverBounds(keys, counts);
    }
  }

  /** Counts of keys not listed do not enter the sum. */
  lemma {:induction false} SumOverIgnores(keys: seq<string>, counts: map<string, int>, k: string, v: int)
    requires forall j :: j in keys ==> j in counts
    requires k !in keys
    ensures SumOver(keys, counts[k := v]) == SumOver(keys, counts)
  {
    if keys != [] {
      assert keys[0] in keys;
      SumOverIgnores(keys[1..], counts, k, v);
    }
  }

  /** Adding d to the count of one key listed exactly once adds d to the sum. */
  lemma {:induction false} SumOverUpdate(keys: seq<string>, counts: map<string, int>, k: string, d: int)
    requires forall j :: j in keys ==> j in counts
    requires Distinct(keys) && k in keys
    ensures SumOver(keys, counts[k := counts[k] + d]) == SumOver(keys, counts) + d
  {
    assert keys[0] in keys;
    if keys[0] == k {
      assert k !in keys[1..];
      SumOverIgnores(keys[1..], counts, k, counts[k] + d);
    } else {
      assert k in keys[1..];
      SumOverUpdate(keys[1..], counts, k, d);
    }
  }

  /** When every count is zero, so is the sum. */
  lemma {:induction false} SumOverZero(keys: seq<string>, counts: map<string, int>)
    requires forall k :: k in keys ==> k in counts && counts[k] == 0
    ensures SumOver(keys, counts) == 0
  {
    if keys != [] {
      assert keys[0] in keys;
      SumOverZero(keys[1..], counts);
    }
  }

  /** A new tally has no votes. */
  lemma ZeroedTotal(options: seq<string>)
    ensures Total(Zeroed(options)) == 0
  {
    var t := Zeroed(options);
    SumOverZero(t.options, t.counts);
  }

  /** With no negative count, the total is non-negative, bounds every count,
      and is 0 exactly when every count is 0. */
  lemma TotalBounds(t: Tally)
    requires WellFormed(t) && NonNegative(t)
    ensures Total(t) >= 0
    ensures forall o :: o in t.counts ==> t.counts[o] <= Total(t)
    ensures Total(t) == 0 <==> forall o :: o in t.counts ==> t.counts[o] == 0
  {
    SumOverBounds(t.options, t.counts);
    if forall o :: o in t.counts ==> t.counts[o] == 0 {
      SumOverZero(t.options, t.counts);
    }
  }

  /** One vote raises the chosen count and the total by exactly one, leaves
      every other count and the option list as they were, and keeps the tally
      well formed and free of negative counts. */
  lemma IncrementTotal(t: Tally, opt: string)
    requires WellFormed(t) && opt in t.counts
    ensures var r := Increment(t, opt);
      && r.options == t.options && r.counts.Keys == t.counts.Keys
      && r.counts[opt] == t.counts[opt] + 1
      && (forall o :: o in t.counts && o != opt ==> r.counts[o] == t.counts[o])
    ensures WellFormed(Increment(t, opt))
    ensures NonNegative(t) ==> NonNegative(Increment(t, opt))
    ensures Total(Increment(t, opt)) == Total(t) + 1
  {
    SumOverUpdate(t.options, t.counts, opt, 1);
  }
}
