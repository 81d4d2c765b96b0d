/**
 The suggestion filter `_filter`: keep the options whose lower-cased display
 attribute includes the lower-cased query; a query that is not a string
 filters with the empty string.
 */
module Filtering {
  import opened Values
  import opened Text

  /** Every option carries the display attribute (the source throws otherwise). */
  predicate HasField(xs: seq<OptionRecord>, field: string)
  {
    forall o :: o in xs ==> field in o
  }

  /** The filter text the query value stands for. */
  function Query(q: Value): (t: string)
    ensures q.Str? ==> t == Lower(q.s)
    ensures !q.Str? ==> t == ""
  {
    if q.Str? then Lower(q.s) else ""
  }

  /** The query is empty exactly for a non-string value or the empty string. */
  lemma QueryEmpty(q: Value)
    ensures Query(q) == "" <==> !q.Str? || q.s == ""
  {
    if q.Str? && q.s != "" {
      assert |Query(q)| == |q.s|;
    }
  }

  /** Whether one option survives the filter for query `q`. */
  predicate Matches(o: OptionRecord, displayField: string, q: Value): (r: bool)
    ensures r <==> displayField in o && exists i :: OccursAt(Lower(o[displayField]), Query(q), i)
  {
    displayField in o && Includes(Lower(o[displayField]), Query(q))
  }

  /** `_filter(q)` over the option list, in the list's order. */
  function Filter(xs: seq<OptionRecord>, displayField: string, q: Value): (r: seq<OptionRecord>)
    requires HasField(xs, displayField)
    ensures |r| <= |xs|
    ensures forall o :: o in r ==> o in xs && Matches(o, displayField, q)
  {
    if xs == [] then []
    else
      var rest := Filter(xs[1..], displayField, q);
      if Matches(xs[0], displayField, q) then [xs[0]] + rest else rest
  }

  /** `idx` lists, in increasing order, positions of `b` holding `a`'s elements. */
  ghost predicate Embedding<T>(a: seq<T>, b: seq<T>, idx: seq<int>)
  {
    && |idx| == |a|
    && (forall k :: 0 <= k < |idx| ==> 0 <= idx[k] < |b| && b[idx[k]] == a[k])
    && (forall k, l :: 0 <= k < l < |idx| ==> idx[k] < idx[l])
  }

  /** `a` is an order-preserving subsequence of `b`. */
  ghost predicate Subsequence<T>(a: seq<T>, b: seq<T>)
  {
    exists idx :: Embedding(a, b, idx)
  }

  /** Shifting every position by one embeds `a` into `[x] + b`. */
  lemma EmbeddingCons<T>(a: seq<T>, b: seq<T>, x: T, idx: seq<int>) returns (idx': seq<int>)
    requires Embedding(a, b, idx)
    ensures Embedding(a, [x] + b, idx')
    ensures forall k :: 0 <= k < |idx'| ==> idx'[k] >= 1
  {
    idx' := seq(|idx|, k requires 0 <= k < |idx| => idx[k] + 1);
  }

  /** Dropping a new first element keeps a subsequence a subsequence. */
  lemma SubsequenceSkip<T>(a: seq<T>, b: seq<T>, x: T)
    requires Subsequence(a, b)
    ensures Subsequence(a, [x] + b)
  {
    var idx :| Embedding(a, b, idx);
    var idx' := EmbeddingCons(a, b, x, idx);
  }

  /** Keeping a new first element on both sides keeps a subsequence a subsequence. */
  lemma SubsequenceKeep<T>(a: seq<T>, b: seq<T>, x: T)
    requires Subsequence(a, b)
    ensures Subsequence([x] + a, [x] + b)
  {
    var idx :| Embedding(a, b, idx);
    var idx' := EmbeddingCons(a, b, x, idx);
    assert Embedding([x] + a, [x] + b, [0] + idx');
  }

  /** The filter result is an order-preserving subsequence of the options. */
  lemma {:induction false} FilterIsSubsequence(xs: seq<OptionRecord>, displayField: string, q: Value)
    requires HasField(xs, displayField)
    ensures Subsequence(Filter(xs, displayField, q), xs)
  {
    if xs == [] {
      assert Embedding([], xs, []);
    } else {
      var rest := Filter(xs[1..], displayField, q);
      FilterIsSubsequence(xs[1..], displayField, q);
      assert [xs[0]] + xs[1..] == xs;
      if Matches(xs[0], displayField, q) {
        SubsequenceKeep(rest, xs[1..], xs[0]);
      } else {
        SubsequenceSkip(rest, xs[1..], xs[0]);
      }
    }
  }

  /**
   The filter keeps each option exactly as many times as it occurs when it
   matches, and drops it altogether when it does not.
   */
  lemma {:induction false} FilterCount(xs: seq<OptionRecord>, displayField: string, q: Value)
    requires HasField(xs, displayField)
    ensures forall o :: multiset(Filter(xs, displayField, q))[o] ==
                        (if Matches(o, displayField, q) then multiset(xs)[o] else 0)
  {
    if xs != [] {
      FilterCount(xs[1..], displayField, q);
      assert xs == [xs[0]] + xs[1..];
      assert multiset(xs) == multiset{xs[0]} + multiset(xs[1..]);
    }
  }

  /** An option is in the result exactly when it is an option that matches. */
  lemma {:induction false} FilterMembership(xs: seq<OptionRecord>, displayField: string, q: Value, o: OptionRecord)
    requires HasField(xs, displayField)
    ensures o in Filter(xs, displayField, q) <==> o in xs && Matches(o, displayField, q)
  {
    FilterCount(xs, displayField, q);
    assert o in xs <==> multiset(xs)[o] > 0;
  }

  /** A list whose every option matches passes through unchanged. */
  lemma {:induction false} FilterAllMatching(xs: seq<OptionRecord>, displayField: string, q: Value)
    requires HasField(xs, displayField)
    requires forall o :: o in xs ==> Matches(o, displayField, q)
    ensures Filter(xs, displayField, q) == xs
  {
    if xs != [] {
      FilterAllMatching(xs[1..], displayField, q);
    }
  }

  /**
   A non-string query and the empty string both give the whole list, which is
   what the initial `startWith('')` emission shows.
   */
  lemma {:induction false} EmptyQueryKeepsAll(xs: seq<OptionRecord>, displayField: string, q: Value)
    requires HasField(xs, displayField)
    requires !q.Str? || q.s == ""
    ensures Filter(xs, displayField, q) == xs
  {
    QueryEmpty(q);
    forall o | o in xs
      ensures Matches(o, displayField, q)
    {
      IncludesEmpty(Lower(o[displayField]));
    }
    FilterAllMatching(xs, displayField, q);
  }

  /** Filtering an already filtered list with the same query changes nothing. */
  lemma {:induction false} FilterIdempotent(xs: seq<OptionRecord>, displayField: string, q: Value)
    requires HasField(xs, displayField)
    ensures HasField(Filter(xs, displayField, q), displayField)
    ensures Filter(Filter(xs, displayField, q), displayField, q) == Filter(xs, displayField, q)
  {
    FilterAllMatching(Filter(xs, displayField, q), displayField, q);
  }
}
