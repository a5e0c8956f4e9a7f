/**
 * How both chunking scripts put segment results back together: each
 * `(segment, text)` is stored, in whatever order the worker pool finishes
 * them, into a dict under `segment.segment_index`, and the dict is then
 * shown by `sorted(results.keys())`.
 */
module Reassembly {
  import opened Segments

  /** `(segment, text)`: what the analysis of one segment returns. */
  datatype SegmentResult = SegmentResult(segment: VideoSegment, text: string)

  /**
   * The order `as_completed` yields the submitted futures in: every segment
   * position `0 .. n-1` exactly once, in any order.
   */
  predicate IsCompletionOrder(order: seq<nat>, n: nat) {
    && |order| == n
    && (forall p :: 0 <= p < |order| ==> order[p] < n)
    && (forall p, q :: 0 <= p < q < |order| ==> order[p] != order[q])
    && (forall j :: 0 <= j < n ==> j in order)
  }

  predicate DistinctIndices(segs: seq<VideoSegment>) {
    forall p, q :: 0 <= p < q < |segs| ==> segs[p].segmentIndex != segs[q].segmentIndex
  }

  predicate IncreasingIndices(segs: seq<VideoSegment>) {
    forall p, q :: 0 <= p < q < |segs| ==> segs[p].segmentIndex < segs[q].segmentIndex
  }

  /**
   * A Python dict from segment index to result: its keys in insertion
   * order, and the entry under each key.
   */
  datatype Results = Results(keys: seq<int>, entries: map<int, SegmentResult>)

  predicate DistinctInts(s: seq<int>) {
    forall p, q :: 0 <= p < q < |s| ==> s[p] != s[q]
  }

  /** The keys are listed once each, and they are exactly the keys of the entries. */
  ghost predicate ValidResults(d: Results) {
    DistinctInts(d.keys) && forall x :: x in d.keys <==> x in d.entries
  }

  /** `results[k] = v`: a new key goes to the end, an existing key keeps its place. */
  function Put(d: Results, k: int, v: SegmentResult): (r: Results)
    ensures ValidResults(d) ==> ValidResults(r)
    ensures r.entries == d.entries[k := v]
    ensures k in d.keys ==> r.keys == d.keys
    ensures k !in d.keys ==> r.keys == d.keys + [k]
  {
    if k in d.keys then Results(d.keys, d.entries[k := v])
    else Results(d.keys + [k], d.entries[k := v])
  }

  /**
   * The dict after the results of the segments at positions `done` were
   * stored one after the other, `results[segment.segment_index] = (segment, text)`,
   * starting from `{}`.
   */
  function Stored(segs: seq<VideoSegment>, texts: seq<string>, done: seq<nat>): (r: Results)
    requires |texts| == |segs|
    requires forall p :: 0 <= p < |done| ==> done[p] < |segs|
    ensures ValidResults(r)
  {
    if done == [] then Results([], map[])
    else
      var j := done[|done| - 1];
      Put(Stored(segs, texts, done[..|done| - 1]), segs[j].segmentIndex, SegmentResult(segs[j], texts[j]))
  }

  /** Storing one more completed position, as the completion loop does. */
  lemma StoredPrefixStep(segs: seq<VideoSegment>, texts: seq<string>, order: seq<nat>, i: nat)
    requires |texts| == |segs| && i < |order|
    requires forall p :: 0 <= p < |order| ==> order[p] < |segs|
    ensures Stored(segs, texts, order[..i + 1])
         == Put(Stored(segs, texts, order[..i]), segs[order[i]].segmentIndex, SegmentResult(segs[order[i]], texts[order[i]]))
  {
    assert order[..i + 1][..i] == order[..i];
  }

  /** Every segment's result under its own index, independent of any order. */
  function ResultsByIndex(segs: seq<VideoSegment>, texts: seq<string>): map<int, SegmentResult>
    requires |texts| == |segs| && DistinctIndices(segs)
  {
    map j | 0 <= j < |segs| :: segs[j].segmentIndex := SegmentResult(segs[j], texts[j])
  }

  lemma ByIndexContents(segs: seq<VideoSegment>, texts: seq<string>)
    requires |texts| == |segs| && DistinctIndices(segs)
    ensures forall x :: x in ResultsByIndex(segs, texts) <==> exists j :: 0 <= j < |segs| && segs[j].segmentIndex == x
    ensures forall j :: 0 <= j < |segs| ==>
      ResultsByIndex(segs, texts)[segs[j].segmentIndex] == SegmentResult(segs[j], texts[j])
  {
  }

  /** The last stored position adds its own entry to what the earlier ones left. */
  lemma StoredStep(segs: seq<VideoSegment>, texts: seq<string>, done: seq<nat>)
    requires |texts| == |segs| && done != []
    requires forall p :: 0 <= p < |done| ==> done[p] < |segs|
    ensures forall p :: 0 <= p < |done| - 1 ==> done[..|done| - 1][p] == done[p]
    ensures Stored(segs, texts, done).entries
         == Stored(segs, texts, done[..|done| - 1]).entries[segs[done[|done| - 1]].segmentIndex
              := SegmentResult(segs[done[|done| - 1]], texts[done[|done| - 1]])]
  {
  }

  /** The keys storing the positions in `done` leaves in the dict: their segments' indices. */
  lemma {:induction false} StoredKeys(segs: seq<VideoSegment>, texts: seq<string>, done: seq<nat>)
    requires |texts| == |segs|
    requires forall p :: 0 <= p < |done| ==> done[p] < |segs|
    ensures forall x :: x in Stored(segs, texts, done).entries <==> exists p :: 0 <= p < |done| && segs[done[p]].segmentIndex == x
  {
    if done != [] {
      var init, last := done[..|done| - 1], done[|done| - 1];
      StoredKeys(segs, texts, init);
      StoredStep(segs, texts, done);
      var m0, m := Stored(segs, texts, init).entries, Stored(segs, texts, done).entries;
      forall x | x in m ensures exists p :: 0 <= p < |done| && segs[done[p]].segmentIndex == x {
        if x != segs[last].segmentIndex {
          var p :| 0 <= p < |init| && segs[init[p]].segmentIndex == x;
          assert segs[done[p]].segmentIndex == x;
        } else {
          assert segs[done[|done| - 1]].segmentIndex == x;
        }
      }
      forall p | 0 <= p < |done| ensures segs[done[p]].segmentIndex in m {
        if p < |init| {
          assert segs[init[p]].segmentIndex in m0;
        }
      }
    }
  }

  /** The entry each stored position leaves under its index, when indices are distinct. */
  lemma {:induction false} StoredValues(segs: seq<VideoSegment>, texts: seq<string>, done: seq<nat>)
    requires |texts| == |segs| && DistinctIndices(segs)
    requires forall p :: 0 <= p < |done| ==> done[p] < |segs|
    ensures forall p :: 0 <= p < |done| ==> segs[done[p]].segmentIndex in Stored(segs, texts, done).entries
    ensures forall p :: 0 <= p < |done| ==>
      Stored(segs, texts, done).entries[segs[done[p]].segmentIndex] == SegmentResult(segs[done[p]], texts[done[p]])
  {
    if done != [] {
      var init, last := done[..|done| - 1], done[|done| - 1];
      StoredValues(segs, texts, init);
      StoredStep(segs, texts, done);
      var m := Stored(segs, texts, done).entries;
      forall p | 0 <= p < |done|
        ensures segs[done[p]].segmentIndex in m
        ensures m[segs[done[p]].segmentIndex] == SegmentResult(segs[done[p]], texts[done[p]])
      {
        var j := done[p];
        if segs[j].segmentIndex == segs[last].segmentIndex {
          assert j == last;
        } else {
          assert p < |init| && init[p] == j;
        }
      }
    }
  }

  /**
   * Whatever order the segments complete in, the dict ends up holding each
   * segment's own result under its own index, and nothing else.
   */
  lemma StoredIsByIndex(segs: seq<VideoSegment>, texts: seq<string>, order: seq<nat>)
    requires |texts| == |segs| && DistinctIndices(segs)
    requires IsCompletionOrder(order, |segs|)
    ensures Stored(segs, texts, order).entries == ResultsByIndex(segs, texts)
  {
    StoredKeys(segs, texts, order);
    StoredCoversSegments(segs, texts, order);
    var m := Stored(segs, texts, order).entries;
    forall x | x in m ensures exists j :: 0 <= j < |segs| && segs[j].segmentIndex == x {
      var p :| 0 <= p < |order| && segs[order[p]].segmentIndex == x;
      assert segs[order[p]].segmentIndex == x;
    }
    IsByIndex(segs, texts, m);
  }

  /** A map holding each segment's result under its index, and no other key, is `ResultsByIndex`. */
  lemma IsByIndex(segs: seq<VideoSegment>, texts: seq<string>, m: map<int, SegmentResult>)
    requires |texts| == |segs| && DistinctIndices(segs)
    requires forall x :: x in m ==> exists j :: 0 <= j < |segs| && segs[j].segmentIndex == x
    requires forall j :: 0 <= j < |segs| ==>
      segs[j].segmentIndex in m && m[segs[j].segmentIndex] == SegmentResult(segs[j], texts[j])
    ensures m == ResultsByIndex(segs, texts)
  {
    ByIndexContents(segs, texts);
    var r := ResultsByIndex(segs, texts);
    forall x ensures x in m.Keys <==> x in r.Keys {
      if x in m {
        var j :| 0 <= j < |segs| && segs[j].segmentIndex == x;
        assert segs[j].segmentIndex in r;
      }
      if x in r {
        var j :| 0 <= j < |segs| && segs[j].segmentIndex == x;
        assert segs[j].segmentIndex in m;
      }
    }
    assert m.Keys == r.Keys;
  }

  /** Once every position has completed, each segment's own result is stored under its index. */
  lemma StoredCoversSegments(segs: seq<VideoSegment>, texts: seq<string>, order: seq<nat>)
    requires |texts| == |segs| && DistinctIndices(segs)
    requires IsCompletionOrder(order, |segs|)
    ensures forall j :: 0 <= j < |segs| ==>
      segs[j].segmentIndex in Stored(segs, texts, order).entries
      && Stored(segs, texts, order).entries[segs[j].segmentIndex] == SegmentResult(segs[j], texts[j])
  {
    StoredValues(segs, texts, order);
    forall j | 0 <= j < |segs|
      ensures segs[j].segmentIndex in Stored(segs, texts, order).entries
      ensures Stored(segs, texts, order).entries[segs[j].segmentIndex] == SegmentResult(segs[j], texts[j])
    {
      CompletedPosition(order, |segs|, j);
    }
  }

  /** Every position appears somewhere in a completion order. */
  lemma CompletedPosition(order: seq<nat>, n: nat, j: nat)
    requires IsCompletionOrder(order, n) && j < n
    ensures exists p :: 0 <= p < |order| && order[p] == j
  {
    assert j in order;
  }

  // ---------------------------------------------------------------------
  // sorted(results.keys())
  // ---------------------------------------------------------------------

  predicate StrictlyIncreasing(s: seq<int>) {
    forall p, q :: 0 <= p < q < |s| ==> s[p] < s[q]
  }

  /** `x` put into its place in an ascending sequence that lacks it. */
  function Insert(x: int, s: seq<int>): (r: seq<int>)
    requires StrictlyIncreasing(s) && x !in s
    ensures StrictlyIncreasing(r)
    ensures forall y :: y in r <==> y == x || y in s
  {
    if s == [] || x < s[0] then [x] + s
    else
      assert forall y :: y in s[1..] ==> y in s && s[0] < y;
      var rest := Insert(x, s[1..]);
      forall q | 0 <= q < |rest| ensures s[0] < rest[q] {
        assert rest[q] in rest;
      }
      [s[0]] + rest
  }

  /** `sorted(keys)` for keys listed once each: the same keys in ascending order. */
  function SortedKeys(keys: seq<int>): (r: seq<int>)
    requires DistinctInts(keys)
    ensures StrictlyIncreasing(r)
    ensures forall y :: y in r <==> y in keys
  {
    if keys == [] then []
    else
      var init := keys[..|keys| - 1];
      assert forall y :: y in init <==> exists p :: 0 <= p < |keys| - 1 && keys[p] == y;
      Insert(keys[|keys| - 1], SortedKeys(init))
  }

  /** Two ascending sequences with the same members are the same sequence. */
  lemma {:induction false} AscendingUnique(a: seq<int>, b: seq<int>)
    requires StrictlyIncreasing(a) && StrictlyIncreasing(b)
    requires forall x :: x in a <==> x in b
    ensures a == b
  {
    if a != [] { assert a[0] in a; }
    if b != [] { assert b[0] in b; }
    if a != [] && b != [] {
      HeadsEqual(a, b);
      TailsSameMembers(a, b);
      AscendingUnique(a[1..], b[1..]);
      assert a == [a[0]] + a[1..] && b == [b[0]] + b[1..];
    }
  }

  lemma HeadsEqual(a: seq<int>, b: seq<int>)
    requires a != [] && b != []
    requires StrictlyIncreasing(a) && StrictlyIncreasing(b)
    requires forall x :: x in a <==> x in b
    ensures a[0] == b[0]
  {
    assert a[0] in a && b[0] in b;
    var i :| 0 <= i < |b| && b[i] == a[0];
    var j :| 0 <= j < |a| && a[j] == b[0];
    assert b[0] <= b[i] && a[0] <= a[j];
  }

  lemma TailsSameMembers(a: seq<int>, b: seq<int>)
    requires a != [] && b != [] && a[0] == b[0]
    requires StrictlyIncreasing(a) && StrictlyIncreasing(b)
    requires forall x :: x in a <==> x in b
    ensures StrictlyIncreasing(a[1..]) && StrictlyIncreasing(b[1..])
    ensures forall x :: x in a[1..] <==> x in b[1..]
  {
    forall x | x in a[1..] ensures x in b[1..] {
      TailMember(a, b, x);
    }
    forall x | x in b[1..] ensures x in a[1..] {
      TailMember(b, a, x);
    }
  }

  /** A member of one tail is in the other tail: it is above the common head. */
  lemma TailMember(a: seq<int>, b: seq<int>, x: int)
    requires a != [] && b != [] && a[0] == b[0]
    requires StrictlyIncreasing(a) && StrictlyIncreasing(b)
    requires forall y :: y in a <==> y in b
    requires x in a[1..]
    ensures x in b[1..]
  {
    var i :| 0 <= i < |a[1..]| && a[1..][i] == x;
    assert a[i + 1] == x && a[0] < x;
    assert x in a;
    var j :| 0 <= j < |b| && b[j] == x;
    assert j != 0;
    assert b[1..][j - 1] == x;
  }

  /** `[results[i] for i in sorted(results.keys())]`: the entries in the order they are shown. */
  function DisplayOrder(d: Results): seq<SegmentResult>
    requires ValidResults(d)
  {
    var keys := SortedKeys(d.keys);
    forall p | 0 <= p < |keys| ensures keys[p] in d.entries {
      assert keys[p] in keys;
    }
    seq(|keys|, p requires 0 <= p < |keys| => d.entries[keys[p]])
  }

  /**
   * A dict holding each segment's result under its index, with indices
   * growing along the segment list, is shown in segment-list order: entry
   * `k` is the `k`-th segment with its own text.
   */
  lemma DisplayFollowsIndexOrder(segs: seq<VideoSegment>, texts: seq<string>, d: Results)
    requires |texts| == |segs| && IncreasingIndices(segs)
    requires ValidResults(d) && d.entries == ResultsByIndex(segs, texts)
    ensures DisplayOrder(d) == seq(|segs|, k requires 0 <= k < |segs| => SegmentResult(segs[k], texts[k]))
  {
    var indices := seq(|segs|, k requires 0 <= k < |segs| => segs[k].segmentIndex);
    ByIndexContents(segs, texts);
    forall x ensures x in indices <==> x in d.keys {
      if x in indices {
        var k :| 0 <= k < |indices| && indices[k] == x;
      }
      if x in d.keys {
        var k :| 0 <= k < |segs| && segs[k].segmentIndex == x;
        assert indices[k] == x;
      }
    }
    AscendingUnique(SortedKeys(d.keys), indices);
  }

  /**
   * What the display loop prints after the completion loop: the segments'
   * results in segment-list order, whatever order they completed in.
   */
  lemma ShownInSegmentOrder(segs: seq<VideoSegment>, texts: seq<string>, order: seq<nat>)
    requires |texts| == |segs| && IncreasingIndices(segs)
    requires IsCompletionOrder(order, |segs|)
    ensures DisplayOrder(Stored(segs, texts, order))
         == seq(|segs|, k requires 0 <= k < |segs| => SegmentResult(segs[k], texts[k]))
  {
    StoredIsByIndex(segs, texts, order);
    DisplayFollowsIndexOrder(segs, texts, Stored(segs, texts, order));
  }
}
