/** Splitting a long message into parts.

    Both splitters of the program are the same greedy algorithm: take as many code
    units as a part may hold, one fewer when that would separate two units that
    belong together (an escape and the code it escapes, or a surrogate pair).
    Here the algorithm is stated once over any "belongs together" relation, proved
    lossless and legal, and proved to use the fewest parts of any legal split. */
module Segmentation {
  type Glue<!T> = (T, T) -> bool

  /** Cutting s after k units separates nothing that belongs together. */
  predicate CutAllowed<T>(glued: Glue<T>, s: seq<T>, k: nat) {
    0 < k < |s| ==> !glued(s[k - 1], s[k])
  }

  /** No unit belongs to both its neighbours: at most one of any two adjacent cuts is barred. */
  predicate Separable<T>(glued: Glue<T>, s: seq<T>) {
    forall i :: 0 < i < |s| - 1 ==> !(glued(s[i - 1], s[i]) && glued(s[i], s[i + 1]))
  }

  /** segments is a division of s into parts of at most maximum units with every cut allowed. */
  predicate LegalSplit<T(==)>(glued: Glue<T>, maximum: nat, segments: seq<seq<T>>, s: seq<T>) {
    if segments == [] then s == []
    else
      && segments[0] <= s
      && |segments[0]| <= maximum
      && CutAllowed(glued, s, |segments[0]|)
      && LegalSplit(glued, maximum, segments[1..], s[|segments[0]|..])
  }

  function Flatten<T>(segments: seq<seq<T>>): seq<T> {
    if segments == [] then [] else segments[0] + Flatten(segments[1..])
  }

  /** How many units the greedy splitter puts in the first part. */
  function FirstPart<T>(glued: Glue<T>, maximum: nat, s: seq<T>): (count: nat)
    requires maximum >= 2 && s != []
    ensures 0 < count <= |s|
  {
    var count := if maximum > |s| then |s| else maximum;
    if count < |s| && glued(s[count - 1], s[count]) then count - 1 else count
  }

  function Greedy<T>(glued: Glue<T>, maximum: nat, s: seq<T>): seq<seq<T>>
    requires maximum >= 2
    decreases |s|
  {
    if s == [] then []
    else
      var count := FirstPart(glued, maximum, s);
      [s[..count]] + Greedy(glued, maximum, s[count..])
  }

  lemma Associate<T>(r: seq<T>, s: seq<T>, t: seq<T>)
    ensures r + (s + t) == (r + s) + t
  {
  }

  lemma {:induction false} LegalSplitIsLossless<T>(glued: Glue<T>, maximum: nat, segments: seq<seq<T>>, s: seq<T>)
    requires LegalSplit(glued, maximum, segments, s)
    ensures Flatten(segments) == s
  {
    if segments != [] {
      LegalSplitIsLossless(glued, maximum, segments[1..], s[|segments[0]|..]);
    }
  }

  lemma SeparableSuffix<T>(glued: Glue<T>, s: seq<T>, k: nat)
    requires Separable(glued, s) && k <= |s|
    ensures Separable(glued, s[k..])
  {
    var t := s[k..];
    forall i | 0 < i < |t| - 1 ensures !(glued(t[i - 1], t[i]) && glued(t[i], t[i + 1])) {
      assert t[i - 1] == s[k + i - 1] && t[i] == s[k + i] && t[i + 1] == s[k + i + 1];
      var m := k + i;
      assert !(glued(s[m - 1], s[m]) && glued(s[m], s[m + 1]));
    }
  }

  lemma FirstPartAllowed<T>(glued: Glue<T>, maximum: nat, s: seq<T>)
    requires maximum >= 2 && s != [] && Separable(glued, s)
    ensures FirstPart(glued, maximum, s) <= maximum && CutAllowed(glued, s, FirstPart(glued, maximum, s))
  {
    var count := FirstPart(glued, maximum, s);
    var full := if maximum > |s| then |s| else maximum;
    if count < full {
      assert glued(s[full - 1], s[full]);
      assert !glued(s[full - 2], s[full - 1]);
    }
  }

  /** Every cut the greedy splitter makes is allowed, and its parts are in bounds and not empty. */
  lemma {:induction false} GreedyIsLegal<T>(glued: Glue<T>, maximum: nat, s: seq<T>)
    requires maximum >= 2 && Separable(glued, s)
    ensures LegalSplit(glued, maximum, Greedy(glued, maximum, s), s)
    ensures forall part :: part in Greedy(glued, maximum, s) ==> part != []
    decreases |s|
  {
    if s != [] {
      hide Separable, CutAllowed, FirstPart;
      var count := FirstPart(glued, maximum, s);
      FirstPartAllowed(glued, maximum, s);
      SeparableSuffix(glued, s, count);
      GreedyIsLegal(glued, maximum, s[count..]);
      var rest := Greedy(glued, maximum, s[count..]);
      assert Greedy(glued, maximum, s) == [s[..count]] + rest;
      assert ([s[..count]] + rest)[1..] == rest;
    }
  }

  /** The greedy splitter stays ahead: started at or after the start of any legal
      split of the rest, it needs no more parts than that split. */
  lemma {:induction false} GreedyStaysAhead<T>(glued: Glue<T>, maximum: nat, s: seq<T>, p: nat, q: nat,
                                               rival: seq<seq<T>>)
    requires maximum >= 2 && q <= p <= |s|
    requires LegalSplit(glued, maximum, rival, s[q..])
    ensures |Greedy(glued, maximum, s[p..])| <= |rival|
    decreases |rival|
  {
    if p < |s| {
      assert s[q..] != [];
      var q' := q + |rival[0]|;
      assert s[q..][|rival[0]|..] == s[q'..];
      if q' <= p {
        GreedyStaysAhead(glued, maximum, s, p, q', rival[1..]);
      } else {
        var count := FirstPart(glued, maximum, s[p..]);
        var p' := p + count;
        assert q' <= p' by { FirstPartReaches(glued, maximum, s, p, q, q'); }
        assert s[p..][count..] == s[p'..];
        GreedyStaysAhead(glued, maximum, s, p', q', rival[1..]);
      }
    }
  }

  lemma FirstPartReaches<T>(glued: Glue<T>, maximum: nat, s: seq<T>, p: nat, q: nat, q': nat)
    requires maximum >= 2 && q <= p < q' <= |s| && q' <= q + maximum
    requires CutAllowed(glued, s[q..], q' - q)
    ensures q' <= p + FirstPart(glued, maximum, s[p..])
  {
    var t := s[p..];
    var full := if maximum > |t| then |t| else maximum;
    if full < |t| && q' == p + full {
      assert s[q..][q' - q - 1] == s[q' - 1] == t[full - 1];
      assert s[q..][q' - q] == s[q'] == t[full];
    }
  }

  /** No legal split has fewer parts than the greedy one. */
  lemma GreedyIsOptimal<T>(glued: Glue<T>, maximum: nat, s: seq<T>, rival: seq<seq<T>>)
    requires maximum >= 2
    requires LegalSplit(glued, maximum, rival, s)
    ensures |Greedy(glued, maximum, s)| <= |rival|
  {
    assert s[0..] == s;
    GreedyStaysAhead(glued, maximum, s, 0, 0, rival);
  }

  /** A split into at most `limit` parts exists exactly when the greedy split is one. */
  lemma TooLongExactly<T>(glued: Glue<T>, maximum: nat, s: seq<T>, limit: nat)
    requires maximum >= 2 && Separable(glued, s)
    ensures |Greedy(glued, maximum, s)| > limit
       <==> !exists rival :: LegalSplit(glued, maximum, rival, s) && |rival| <= limit
  {
    if rival :| LegalSplit(glued, maximum, rival, s) && |rival| <= limit {
      GreedyIsOptimal(glued, maximum, s, rival);
    }
    GreedyIsLegal(glued, maximum, s);
  }

  /** Appending a part to a greedy prefix, for the splitting loops. */
  lemma GreedyUnfolds<T>(glued: Glue<T>, maximum: nat, s: seq<T>, done: seq<seq<T>>)
    requires maximum >= 2 && s != []
    ensures var count := FirstPart(glued, maximum, s);
            done + Greedy(glued, maximum, s) == (done + [s[..count]]) + Greedy(glued, maximum, s[count..])
  {
  }
}
