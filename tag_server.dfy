/**
  The tag-detection service: the recogniser is run on several preprocessed versions of an image,
  all results are pooled and sorted by confidence, most confident first, and the first result
  that looks like a tag is returned with a confidence tier.
 */
module TagServer {
  import opened Wrappers
  import opened OcrTag

  /** The confidence tier reported with the tag. */
  datatype Tier = HighConfidence | LowConfidence | Unreadable {
    function Label(): string {
      match this
      case HighConfidence => "high_confidence"
      case LowConfidence => "low_confidence"
      case Unreadable => "unreadable"
    }
  }

  /** The confidence above which a tag is reported as high confidence. */
  const HighThreshold: real := 0.6

  /**
    `extract_tag_number`: the first result whose cleaned text looks like a tag and whose
    confidence exceeds 0.4, tiered high above 0.6 and low otherwise; `(None, "unreadable")` when
    there is none. The tag is the one the preprocessing script's reader picks.
   */
  function ExtractTagNumber(results: seq<OcrResult>): (r: (Option<string>, Tier))
    ensures r.0 == OcrTag.ExtractTagNumber(results)
    ensures r.1 == Unreadable <==> r.0.None?
    ensures var k := FirstAccepted(results);
      && (r.1 == HighConfidence <==> k < |results| && results[k].conf > HighThreshold)
      && (r.1 == LowConfidence <==> k < |results| && Threshold < results[k].conf <= HighThreshold)
  {
    if results == [] then (None, Unreadable)
    else
      var cleaned := Cleaned(results[0].text);
      if results[0].conf > HighThreshold && IsTagText(cleaned) then (Some(cleaned), HighConfidence)
      else if results[0].conf > Threshold && IsTagText(cleaned) then (Some(cleaned), LowConfidence)
      else ExtractTagNumber(results[1..])
  }

  // ---------------------------------------------------------------------------
  // Pooling and sorting the results

  /** The results of every reading, one reading after the other: `candidates.extend(results)`. */
  function Pool(readings: seq<seq<OcrResult>>): seq<OcrResult> {
    if readings == [] then [] else Pool(readings[..|readings| - 1]) + readings[|readings| - 1]
  }

  /** A result is pooled exactly when some reading holds it. */
  lemma {:induction false} PoolHolds(readings: seq<seq<OcrResult>>, x: OcrResult)
    ensures x in Pool(readings) <==> exists i :: 0 <= i < |readings| && x in readings[i]
  {
    if readings != [] {
      var init := readings[..|readings| - 1];
      PoolHolds(init, x);
      assert forall i :: 0 <= i < |init| ==> init[i] == readings[i];
    }
  }

  /** Most confident first. */
  predicate SortedByConf(s: seq<OcrResult>) {
    forall i, j :: 0 <= i < j < |s| ==> s[i].conf >= s[j].conf
  }

  /** `x` placed after every entry at least as confident as it and before the rest. */
  function Insert(sorted: seq<OcrResult>, x: OcrResult): seq<OcrResult> {
    if sorted == [] then [x]
    else if sorted[0].conf >= x.conf then [sorted[0]] + Insert(sorted[1..], x)
    else [x] + sorted
  }

  /** Insertion adds `x` and loses nothing. */
  lemma {:induction false} InsertPermutes(sorted: seq<OcrResult>, x: OcrResult)
    ensures multiset(Insert(sorted, x)) == multiset(sorted) + multiset{x}
  {
    if sorted != [] && sorted[0].conf >= x.conf {
      InsertPermutes(sorted[1..], x);
      assert sorted == [sorted[0]] + sorted[1..];
    }
  }

  /** Inserting into a list sorted most confident first keeps it sorted. */
  lemma {:induction false} InsertSorted(sorted: seq<OcrResult>, x: OcrResult)
    requires SortedByConf(sorted)
    ensures SortedByConf(Insert(sorted, x))
  {
    if sorted != [] && sorted[0].conf >= x.conf {
      var rest := Insert(sorted[1..], x);
      InsertSorted(sorted[1..], x);
      assert rest[0].conf <= sorted[0].conf by {
        if |sorted| > 1 && sorted[1].conf >= x.conf {
          assert rest[0] == sorted[1];
        } else {
          assert rest[0] == x;
        }
      }
      var r := [sorted[0]] + rest;
      forall i, j | 0 <= i < j < |r|
        ensures r[i].conf >= r[j].conf
      {
        if i == 0 {
          assert r[j] == rest[j - 1];
          assert j - 1 == 0 || rest[0].conf >= rest[j - 1].conf;
        } else {
          assert r[i] == rest[i - 1] && r[j] == rest[j - 1];
        }
      }
    }
  }

  /** `list.sort(key=conf, reverse=True)`: each result inserted in turn, which keeps ties in their order. */
  function SortByConf(s: seq<OcrResult>): (r: seq<OcrResult>)
    ensures SortedByConf(r)
  {
    if s == [] then []
    else
      var init := s[..|s| - 1];
      InsertSorted(SortByConf(init), s[|s| - 1]);
      Insert(SortByConf(init), s[|s| - 1])
  }

  /** The sort loses and adds nothing. */
  lemma {:induction false} SortPermutes(s: seq<OcrResult>)
    ensures multiset(SortByConf(s)) == multiset(s)
  {
    if s != [] {
      var init := s[..|s| - 1];
      SortPermutes(init);
      InsertPermutes(SortByConf(init), s[|s| - 1]);
      assert s == init + [s[|s| - 1]];
    }
  }

  /** The results of `s` read with confidence `c`, in their order. */
  function WithConf(s: seq<OcrResult>, c: real): seq<OcrResult> {
    if s == [] then []
    else (if s[0].conf == c then [s[0]] else []) + WithConf(s[1..], c)
  }

  lemma {:induction false} WithConfAppend(a: seq<OcrResult>, b: seq<OcrResult>, c: real)
    ensures WithConf(a + b, c) == WithConf(a, c) + WithConf(b, c)
  {
    if a != [] {
      WithConfAppend(a[1..], b, c);
      assert (a + b)[1..] == a[1..] + b;
    } else {
      assert a + b == b;
    }
  }

  lemma {:induction false} WithConfNone(s: seq<OcrResult>, c: real)
    requires forall i :: 0 <= i < |s| ==> s[i].conf < c
    ensures WithConf(s, c) == []
  {
    if s != [] {
      WithConfNone(s[1..], c);
    }
  }

  lemma {:induction false} InsertStable(sorted: seq<OcrResult>, x: OcrResult, c: real)
    requires SortedByConf(sorted)
    ensures WithConf(Insert(sorted, x), c) == WithConf(sorted, c) + WithConf([x], c)
  {
    if sorted == [] {
    } else if sorted[0].conf >= x.conf {
      var rest := Insert(sorted[1..], x);
      assert SortedByConf(sorted[1..]);
      InsertStable(sorted[1..], x, c);
      assert Insert(sorted, x) == [sorted[0]] + rest;
      WithConfAppend([sorted[0]], rest, c);
      assert sorted == [sorted[0]] + sorted[1..];
      WithConfAppend([sorted[0]], sorted[1..], c);
    } else {
      assert Insert(sorted, x) == [x] + sorted;
      InsertFrontStable(sorted, x, c);
    }
  }

  /** Placing `x` in front of entries all less confident than it keeps each confidence's order. */
  lemma InsertFrontStable(sorted: seq<OcrResult>, x: OcrResult, c: real)
    requires SortedByConf(sorted) && sorted != [] && sorted[0].conf < x.conf
    ensures WithConf([x] + sorted, c) == WithConf(sorted, c) + WithConf([x], c)
  {
    WithConfAppend([x], sorted, c);
    if x.conf == c {
      assert forall i :: 0 <= i < |sorted| ==> sorted[i].conf <= sorted[0].conf;
      WithConfNone(sorted, c);
    }
  }

  /** The sort is stable: results of equal confidence keep the order they were pooled in. */
  lemma {:induction false} SortStable(s: seq<OcrResult>, c: real)
    ensures WithConf(SortByConf(s), c) == WithConf(s, c)
  {
    if s != [] {
      var init, last := s[..|s| - 1], s[|s| - 1];
      var sortedInit := SortByConf(init);
      assert SortByConf(s) == Insert(sortedInit, last);
      SortStable(init, c);
      InsertStable(sortedInit, last, c);
      assert s == init + [last];
      WithConfAppend(init, [last], c);
    }
  }

  /** One insertion of the sort: scan past the entries at least as confident, then place `x`. */
  method InsertByConf(sorted: seq<OcrResult>, x: OcrResult) returns (r: seq<OcrResult>)
    ensures r == Insert(sorted, x)
  {
    var j := 0;
    while j < |sorted| && sorted[j].conf >= x.conf
      invariant 0 <= j <= |sorted|
      invariant Insert(sorted, x) == sorted[..j] + Insert(sorted[j..], x)
    {
      InsertPasses(sorted, x, j);
      j := j + 1;
    }
    r := sorted[..j] + [x] + sorted[j..];
  }

  /** Insertion passes over an entry at least as confident as the inserted one. */
  lemma InsertPasses(sorted: seq<OcrResult>, x: OcrResult, j: nat)
    requires j < |sorted| && sorted[j].conf >= x.conf
    ensures sorted[..j] + Insert(sorted[j..], x) == sorted[..j + 1] + Insert(sorted[j + 1..], x)
  {
    assert sorted[j..][1..] == sorted[j + 1..];
    assert Insert(sorted[j..], x) == [sorted[j]] + Insert(sorted[j + 1..], x);
    assert sorted[..j + 1] == sorted[..j] + [sorted[j]];
  }

  /** `candidates.sort(key=lambda x: x[2], reverse=True)` */
  method SortCandidates(candidates: seq<OcrResult>) returns (sorted: seq<OcrResult>)
    ensures sorted == SortByConf(candidates)
  {
    sorted := [];
    for i := 0 to |candidates|
      invariant sorted == SortByConf(candidates[..i])
    {
      assert candidates[..i + 1][..i] == candidates[..i];
      sorted := InsertByConf(sorted, candidates[i]);
    }
    assert candidates[..|candidates|] == candidates;
  }

  /**
    `try_all_preprocesses` over the recogniser's results for each preprocessed version: all of
    them pooled, then sorted most confident first, ties in pooled order.
   */
  method TryAllPreprocesses(readings: seq<seq<OcrResult>>) returns (candidates: seq<OcrResult>)
    ensures candidates == SortByConf(Pool(readings))
    ensures SortedByConf(candidates) && multiset(candidates) == multiset(Pool(readings))
  {
    candidates := [];
    for i := 0 to |readings|
      invariant candidates == Pool(readings[..i])
    {
      assert readings[..i + 1][..i] == readings[..i];
      candidates := candidates + readings[i];
    }
    assert readings[..|readings|] == readings;
    candidates := SortCandidates(candidates);
    SortPermutes(Pool(readings));
  }

  /** What the detection route answers for the recogniser's results on each preprocessed version. */
  function Detect(readings: seq<seq<OcrResult>>): (Option<string>, Tier) {
    ExtractTagNumber(SortByConf(Pool(readings)))
  }

  /** The sorted list holds exactly the pooled results. */
  lemma SortKeepsMembers(pool: seq<OcrResult>)
    ensures forall y :: y in SortByConf(pool) <==> y in pool
  {
    SortPermutes(pool);
    forall y
      ensures y in SortByConf(pool) <==> y in pool
    {
      assert y in SortByConf(pool) <==> y in multiset(SortByConf(pool));
      assert y in pool <==> y in multiset(pool);
    }
  }

  /** In a list sorted most confident first, the first accepted result is an accepted one of highest confidence. */
  lemma FirstAcceptedIsMostConfident(sorted: seq<OcrResult>)
    requires SortedByConf(sorted)
    ensures var k := FirstAccepted(sorted);
      k < |sorted| ==> forall j :: 0 <= j < |sorted| && Accepted(sorted[j]) ==> sorted[j].conf <= sorted[k].conf
  {
    var k := FirstAccepted(sorted);
    if k < |sorted| {
      FirstMatchIsMostConfident(sorted, Accepted, k);
    }
  }

  /** In a sorted list, the first entry satisfying `p` is as confident as any entry satisfying `p`. */
  lemma FirstMatchIsMostConfident(sorted: seq<OcrResult>, p: OcrResult -> bool, k: nat)
    requires SortedByConf(sorted) && k < |sorted|
    requires forall j :: 0 <= j < k ==> !p(sorted[j])
    ensures forall j :: 0 <= j < |sorted| && p(sorted[j]) ==> sorted[j].conf <= sorted[k].conf
  {
    forall j | 0 <= j < |sorted| && p(sorted[j])
      ensures sorted[j].conf <= sorted[k].conf
    {
      assert k <= j;
    }
  }

  /**
    The route's tag comes from a result of some reading that looks like a tag, and no acceptable
    result of any reading is more confident.
   */
  lemma DetectPicksMostConfident(readings: seq<seq<OcrResult>>)
    ensures var tag := Detect(readings).0;
      tag.Some? ==>
        exists x ::
          x in Pool(readings) && Accepted(x) && tag.value == Cleaned(x.text) &&
          forall y :: y in Pool(readings) && Accepted(y) ==> y.conf <= x.conf
  {
    var pool := Pool(readings);
    var sorted := SortByConf(pool);
    var k := FirstAccepted(sorted);
    if k < |sorted| {
      var x := sorted[k];
      SortKeepsMembers(pool);
      FirstAcceptedIsMostConfident(sorted);
      assert x in pool;
      forall y | y in pool && Accepted(y)
        ensures y.conf <= x.conf
      {
        var j :| 0 <= j < |sorted| && sorted[j] == y;
      }
      assert Detect(readings).0 == Some(Cleaned(x.text));
    }
  }
}
