/** Per-frame details of a video analysis and the choice of the top frames
    quoted in the video's summary: `sorted(frame_details, key=score,
    reverse=True)[:3]`. Python's sort is stable, also with `reverse=True`, so
    frames with equal scores keep their extraction order; the model sorts by
    insertion, which gives the same (unique) stable order. */
module FrameRanking {
  import opened Common

  datatype FrameDetail = FrameDetail(
    frame: string,
    score: real,
    reasoning: string,
    gemini: Option<real>,
    index: nat)

  const TopCount: nat := 3

  /** `a` is listed before `b`: a higher score, or an equal score and an earlier frame. */
  predicate Precedes(a: FrameDetail, b: FrameDetail) {
    a.score > b.score || (a.score == b.score && a.index < b.index)
  }

  predicate Ranked(s: seq<FrameDetail>) {
    forall i, j :: 0 <= i < j < |s| ==> Precedes(s[i], s[j])
  }

  /** The details are in extraction order: their indices increase. */
  predicate InExtractionOrder(s: seq<FrameDetail>) {
    forall i, j :: 0 <= i < j < |s| ==> s[i].index < s[j].index
  }

  /** Puts `d` after every element with a strictly higher score, before the rest. */
  function Insert(d: FrameDetail, s: seq<FrameDetail>): (r: seq<FrameDetail>)
    ensures multiset(r) == multiset(s) + multiset{d}
  {
    if s == [] then [d]
    else if d.score >= s[0].score then [d] + s
    else
      assert s == [s[0]] + s[1..];
      [s[0]] + Insert(d, s[1..])
  }

  /** `sorted(ds, key=lambda d: d['score'], reverse=True)` */
  function SortByScore(ds: seq<FrameDetail>): (r: seq<FrameDetail>)
    ensures multiset(r) == multiset(ds)
  {
    if ds == [] then []
    else
      assert ds == [ds[0]] + ds[1..];
      Insert(ds[0], SortByScore(ds[1..]))
  }

  lemma {:induction false} InsertRanked(d: FrameDetail, s: seq<FrameDetail>)
    requires Ranked(s)
    requires forall x :: x in s ==> d.index < x.index
    ensures Ranked(Insert(d, s))
  {
    if s == [] {
    } else if d.score >= s[0].score {
      var r := Insert(d, s);
      forall i, j | 0 <= i < j < |r| ensures Precedes(r[i], r[j]) {
        if i == 0 {
          assert r[j] == s[j - 1];
          if j > 1 {
            assert Precedes(s[0], s[j - 1]);
          }
        } else {
          assert r[i] == s[i - 1] && r[j] == s[j - 1];
        }
      }
    } else {
      var tail := Insert(d, s[1..]);
      InsertRanked(d, s[1..]);
      var r := Insert(d, s);
      assert r == [s[0]] + tail;
      forall i, j | 0 <= i < j < |r| ensures Precedes(r[i], r[j]) {
        if i == 0 {
          var x := tail[j - 1];
          assert x in multiset(tail);
          assert x == d || x in multiset(s[1..]);
          if x != d {
            var k :| 1 <= k < |s| && s[k] == x by {
              assert x in s[1..];
              var k' :| 0 <= k' < |s[1..]| && s[1..][k'] == x;
              assert s[k' + 1] == x;
            }
            assert Precedes(s[0], s[k]);
          }
        } else {
          assert r[i] == tail[i - 1] && r[j] == tail[j - 1];
        }
      }
    }
  }

  /** Sorting details that are in extraction order gives them ranked:
      scores do not increase, and equal scores keep extraction order. */
  lemma {:induction false} SortRanked(ds: seq<FrameDetail>)
    requires InExtractionOrder(ds)
    ensures Ranked(SortByScore(ds))
  {
    if ds != [] {
      SortRanked(ds[1..]);
      var rest := SortByScore(ds[1..]);
      forall x | x in rest ensures ds[0].index < x.index {
        assert x in multiset(ds[1..]);
        var k :| 0 <= k < |ds[1..]| && ds[1..][k] == x;
        assert ds[k + 1] == x;
      }
      InsertRanked(ds[0], rest);
    }
  }

  lemma RankedHeadsAgree(a: seq<FrameDetail>, b: seq<FrameDetail>)
    requires multiset(a) == multiset(b) && a != []
    requires Ranked(a) && Ranked(b)
    ensures |b| == |a| && b[0] == a[0]
  {
    assert |b| == |multiset(b)| == |a|;
    assert a[0] in multiset(b) && b[0] in multiset(a);
    var i :| 0 <= i < |b| && b[i] == a[0];
    var j :| 0 <= j < |a| && a[j] == b[0];
    // otherwise a[0] would come after b[0] in b, and b[0] after a[0] in a
    assert i > 0 ==> Precedes(b[0], b[i]);
    assert j > 0 ==> Precedes(a[0], a[j]);
  }

  /** Only one arrangement of a collection of details is ranked, so any stable
      descending sort, Python's included, produces `SortByScore`'s order. */
  lemma {:induction false} RankedIsUnique(a: seq<FrameDetail>, b: seq<FrameDetail>)
    requires multiset(a) == multiset(b)
    requires Ranked(a) && Ranked(b)
    ensures a == b
  {
    if a != [] {
      RankedHeadsAgree(a, b);
      assert a == [a[0]] + a[1..] && b == [b[0]] + b[1..];
      assert multiset(a[1..]) == multiset(a) - multiset{a[0]};
      assert multiset(b[1..]) == multiset(b) - multiset{b[0]};
      RankedIsUnique(a[1..], b[1..]);
    }
  }

  /** The sort's result is determined by what it must satisfy. */
  lemma SortByScoreIsTheRankedPermutation(ds: seq<FrameDetail>, r: seq<FrameDetail>)
    requires InExtractionOrder(ds)
    requires multiset(r) == multiset(ds) && Ranked(r)
    ensures r == SortByScore(ds)
  {
    SortRanked(ds);
    RankedIsUnique(r, SortByScore(ds));
  }

  /** `sorted(...)[:3]` */
  function TopFrames(ds: seq<FrameDetail>): (top: seq<FrameDetail>)
    ensures |top| == Min(TopCount, |ds|)
  {
    var sorted := SortByScore(ds);
    assert |sorted| == |multiset(sorted)| == |ds|;
    sorted[..Min(TopCount, |ds|)]
  }

  /** The top frames are at most three details of the video, ranked, and none of
      the frames left out scores higher than any frame kept. */
  lemma TopFramesAreTheBest(ds: seq<FrameDetail>)
    requires InExtractionOrder(ds)
    ensures |TopFrames(ds)| == Min(TopCount, |ds|)
    ensures Ranked(TopFrames(ds))
    ensures forall t :: t in TopFrames(ds) ==> t in ds
    ensures forall t, x :: t in TopFrames(ds) && x in ds && x !in TopFrames(ds) ==> x.score <= t.score
  {
    var sorted := SortByScore(ds);
    var top := TopFrames(ds);
    SortRanked(ds);
    assert |sorted| == |multiset(sorted)| == |ds|;
    assert top == sorted[..|top|];
    forall t | t in top ensures t in ds {
      assert t in sorted;
      assert t in multiset(sorted);
    }
    forall t, x | t in top && x in ds && x !in top ensures x.score <= t.score {
      var i :| 0 <= i < |top| && top[i] == t;
      assert x in multiset(ds);
      assert x in multiset(sorted);
      var k :| 0 <= k < |sorted| && sorted[k] == x;
      assert Precedes(sorted[i], sorted[k]);
    }
  }
}
