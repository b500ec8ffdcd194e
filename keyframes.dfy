/** Keyframe extraction for the video detector. The decoder is abstracted as
    whether the capture opened and the frames it reads successfully, in
    order; the first read past them fails. Every `frameInterval`-th read
    frame is written to `temp_frame_{k}.jpg`, until `maxFrames` are saved or
    a read fails. */
module Keyframes {
  import opened Common

  const FrameInterval: nat := 30
  const MaxFrames: nat := 15

  /** `f"temp_frame_{k}.jpg"` */
  function FramePath(k: nat): string {
    "temp_frame_" + NatToString(k) + ".jpg"
  }

  /** Distinct frame numbers give distinct temporary files. */
  lemma FramePathInjective(a: nat, b: nat)
    requires FramePath(a) == FramePath(b)
    ensures a == b
  {
    var pa, pb := FramePath(a), FramePath(b);
    assert pa[11..|pa| - 4] == NatToString(a);
    assert pb[11..|pb| - 4] == NatToString(b);
    NatToStringInjective(a, b);
  }

  /** `ceil(n / i)`: how many multiples of `i` lie in [0, n). */
  function CeilDiv(n: nat, i: nat): nat
    requires i > 0
  {
    (n + i - 1) / i
  }

  /** How many frames extraction saves from `n` readable frames. */
  function KeyframeCount(isOpened: bool, n: nat, frameInterval: nat, maxFrames: nat): nat
    requires frameInterval > 0
  {
    if isOpened then Min(maxFrames, CeilDiv(n, frameInterval)) else 0
  }

  lemma MulMono(x: int, y: int, i: int)
    requires x <= y && i >= 0
    ensures x * i <= y * i
  {
  }

  /** Euclidean division is determined by its bracket. */
  lemma DivBetween(a: int, i: int, q: int)
    requires i > 0 && q * i <= a < q * i + i
    ensures a / i == q
  {
    var d := a / i;
    assert a == d * i + a % i;
    if d < q {
      MulMono(d + 1, q, i);
    } else if d > q {
      MulMono(q + 1, d, i);
    }
  }

  /** Once `count` frames have been read and `saved` of them kept, the kept ones are
      the multiples of `i` below `count`: `saved * i` is the first multiple not yet reached. */
  predicate Bracket(count: nat, saved: nat, i: nat) {
    count <= saved * i < count + i
  }

  lemma BracketIsCeilDiv(count: nat, saved: nat, i: nat)
    requires i > 0 && Bracket(count, saved, i)
    ensures saved == CeilDiv(count, i)
  {
    if saved == 0 {
      assert count == 0;
      DivBetween(i - 1, i, 0);
    } else {
      assert (saved - 1) * i == saved * i - i;
      DivBetween(count + i - 1, i, saved);
    }
  }

  lemma BracketStep(count: nat, saved: nat, i: nat)
    requires i > 0 && Bracket(count, saved, i)
    ensures count % i == 0 ==> count == saved * i && Bracket(count + 1, saved + 1, i)
    ensures count % i != 0 ==> Bracket(count + 1, saved, i)
  {
    DivBetween(saved * i, i, saved);
    assert (saved * i) % i == 0;
    if count % i == 0 {
      var q := count / i;
      assert count == q * i;
      if q < saved {
        MulMono(q + 1, saved, i);
      } else if q > saved {
        MulMono(saved + 1, q, i);
      }
      assert (saved + 1) * i == saved * i + i;
    } else {
      assert count != saved * i;
    }
  }

  lemma CeilDivMono(m: nat, n: nat, i: nat)
    requires i > 0 && m <= n
    ensures CeilDiv(m, i) <= CeilDiv(n, i)
  {
    var p, q := m + i - 1, n + i - 1;
    assert p == i * (p / i) + p % i;
    assert q == i * (q / i) + q % i;
    assert (q / i + 1) * i == (q / i) * i + i;
    if p / i > q / i {
      MulMono(q / i + 1, p / i, i);
    }
  }

  /** `extract_keyframes(video_path, frame_interval, max_frames)`: returns the paths of
      the saved frames and the frames written to them. */
  method ExtractKeyframes<F>(isOpened: bool, decoded: seq<F>, frameInterval: nat, maxFrames: nat)
    returns (paths: seq<string>, written: seq<F>)
    requires frameInterval > 0
    ensures |paths| == |written| == KeyframeCount(isOpened, |decoded|, frameInterval, maxFrames)
    ensures |paths| <= maxFrames
    ensures forall k :: 0 <= k < |paths| ==> paths[k] == FramePath(k)
    ensures forall j, k :: 0 <= j < k < |paths| ==> paths[j] != paths[k]
    ensures forall k :: 0 <= k < |written| ==> k * frameInterval < |decoded| && written[k] == decoded[k * frameInterval]
  {
    var count, saved := 0, 0;
    paths, written := [], [];
    while isOpened && saved < maxFrames
      invariant count <= |decoded|
      invariant !isOpened ==> count == saved == 0
      invariant saved == |paths| == |written| && saved <= maxFrames
      invariant Bracket(count, saved, frameInterval)
      invariant forall k :: 0 <= k < |paths| ==> paths[k] == FramePath(k)
      invariant forall k :: 0 <= k < |written| ==> k * frameInterval < count && written[k] == decoded[k * frameInterval]
      decreases |decoded| - count
    {
      if count == |decoded| {
        break;  // the read fails
      }
      var frame := decoded[count];
      BracketStep(count, saved, frameInterval);
      if count % frameInterval == 0 {
        paths := paths + [FramePath(saved)];
        written := written + [frame];
        saved := saved + 1;
      }
      count := count + 1;
    }
    if isOpened {
      BracketIsCeilDiv(count, saved, frameInterval);
      CeilDivMono(count, |decoded|, frameInterval);
    }
    forall j, k | 0 <= j < k < |paths| ensures paths[j] != paths[k] {
      if paths[j] == paths[k] {
        FramePathInjective(j, k);
      }
    }
  }

  /** With the defaults, at most 15 frames are kept, one for every 30 frames read. */
  lemma DefaultExtractionBound(isOpened: bool, n: nat)
    ensures KeyframeCount(isOpened, n, FrameInterval, MaxFrames) <= MaxFrames
    ensures n == 0 ==> KeyframeCount(isOpened, n, FrameInterval, MaxFrames) == 0
    ensures isOpened && 0 < n <= FrameInterval ==> KeyframeCount(isOpened, n, FrameInterval, MaxFrames) == 1
  {
    if 0 < n <= FrameInterval {
      DivBetween(n + FrameInterval - 1, FrameInterval, 1);
    }
    if n == 0 {
      DivBetween(FrameInterval - 1, FrameInterval, 0);
    }
  }
}
