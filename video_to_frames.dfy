/**
 The video to frames extractor: read frames until the first failed read,
 keep every `step`-th one, and save the kept frames under consecutive,
 zero-padded indices.

 Frames are opaque (the type parameter `Frame`). The opened capture is a
 value: whether it opened, and what each successive `read` returns, `None`
 standing for a failed read; reading past the end of `results` fails too.
 */
module VideoToFrames {
  import opened Wrappers
  import opened Numerals
  import opened Files

  datatype Capture<Frame> = Capture(isOpened: bool, results: seq<Option<Frame>>)

  /** What one run ends with: the error raised for an unopenable video, or the number of frames saved. */
  datatype Outcome = CannotOpen(message: string) | Saved(count: nat)

  /** The index of the first failed read at or after `from`; reading past the end fails. */
  function FirstFailureFrom<Frame>(results: seq<Option<Frame>>, from: nat): (n: nat)
    requires from <= |results|
    ensures from <= n <= |results|
    ensures forall i :: from <= i < n ==> results[i].Some?
    ensures n < |results| ==> results[n].None?
    decreases |results| - from
  {
    if from == |results| || results[from].None? then from else FirstFailureFrom(results, from + 1)
  }

  /** How many reads succeed before the first failure: the frames the loop gets to see. */
  function FirstFailure<Frame>(results: seq<Option<Frame>>): (n: nat)
    ensures n <= |results|
    ensures forall i :: 0 <= i < n ==> results[i].Some?
    ensures n < |results| ==> results[n].None?
  {
    FirstFailureFrom(results, 0)
  }

  /** The number of frame indices in [0, n) that are multiples of `step`, counted one index at a time. */
  function CountMultiples(n: nat, step: int): nat
    requires step >= 1
  {
    if n == 0 then 0 else CountMultiples(n - 1, step) + (if (n - 1) % step == 0 then 1 else 0)
  }

  /** The closed form of that count: ceil(n / step). */
  function CeilDiv(n: nat, step: int): nat
    requires step >= 1
  {
    (n + step - 1) / step
  }

  lemma {:induction false} MulAtLeast(d: int, step: int)
    requires d >= 1 && step >= 0
    ensures d * step >= step
  {
    if d > 1 {
      MulAtLeast(d - 1, step);
      assert d * step == (d - 1) * step + step;
    }
  }

  /** Euclidean division has only one quotient and one remainder. */
  lemma DivUnique(m: int, step: int, q: int, r: int)
    requires step >= 1 && 0 <= r < step && m == q * step + r
    ensures m / step == q && m % step == r
  {
    var q', r' := m / step, m % step;
    assert m == q' * step + r';
    if q' < q {
      assert (q - q') * step == q * step - q' * step;
      MulAtLeast(q - q', step);
      assert false;
    } else if q < q' {
      assert (q' - q) * step == q' * step - q * step;
      MulAtLeast(q' - q, step);
      assert false;
    }
  }

  /** Moving past one more frame raises the closed form exactly when that frame is kept. */
  lemma CeilDivNext(n: nat, step: int)
    requires step >= 1
    ensures CeilDiv(n + 1, step) == CeilDiv(n, step) + (if n % step == 0 then 1 else 0)
  {
    var q, r := n / step, n % step;
    assert n == q * step + r;
    if r == 0 {
      DivUnique(n + step - 1, step, q, step - 1);
      DivUnique(n + step, step, q + 1, 0);
    } else {
      DivUnique(n + step - 1, step, q + 1, r - 1);
      DivUnique(n + step, step, q + 1, r);
    }
  }

  /** The count of kept frames among the first `n` is ceil(n / step). */
  lemma {:induction false} CountMultiplesClosedForm(n: nat, step: int)
    requires step >= 1
    ensures CountMultiples(n, step) == CeilDiv(n, step)
  {
    if n == 0 {
      DivUnique(step - 1, step, 0, step - 1);
    } else {
      CountMultiplesClosedForm(n - 1, step);
      CeilDivNext(n - 1, step);
    }
  }

  /** When frame `n` is kept, the frames kept before it number exactly n / step. */
  lemma CeilDivOfMultiple(n: nat, step: int)
    requires step >= 1 && n % step == 0
    ensures CeilDiv(n, step) == n / step && CeilDiv(n, step) * step == n
  {
    var q := n / step;
    assert n == q * step;
    DivUnique(n + step - 1, step, q, step - 1);
  }

  lemma MulMonotone(a: int, b: int, step: int)
    requires a <= b && step >= 0
    ensures a * step <= b * step
  {
    if a < b {
      assert b * step - a * step == (b - a) * step;
      MulAtLeast(b - a, step);
    }
  }

  /** Saved index `k` exists among the first `n` frames exactly when frame k * step is one of them. */
  lemma SavedIndexInRange(n: nat, step: int, k: nat)
    requires step >= 1
    ensures k < CeilDiv(n, step) <==> k * step < n
  {
    var c := CeilDiv(n, step);
    var r := (n + step - 1) % step;
    assert n + step - 1 == c * step + r;
    if k < c {
      MulMonotone(k, c - 1, step);
      assert (c - 1) * step == c * step - step;
    } else {
      MulMonotone(c, k, step);
    }
  }

  /** A kept frame `i` among the first `n` is saved under index i / step, and that index is in range. */
  lemma KeptFrameIndex(n: nat, step: int, i: nat)
    requires step >= 1 && i < n && i % step == 0
    ensures i / step < CeilDiv(n, step) && (i / step) * step == i
  {
    var q := i / step;
    assert i == q * step;
    SavedIndexInRange(n, step, q);
  }

  /** `f"{prefix}_{saved_idx:06d}.png"`. */
  function FrameName(prefix: string, savedIdx: nat): (r: string)
    ensures |r| == |prefix| + 5 + (if |Decimal(savedIdx)| < 6 then 6 else |Decimal(savedIdx)|)
    ensures savedIdx < 1000000 ==> |r| == |prefix| + 11
    ensures r[..|prefix| + 1] == prefix + "_" && r[|r| - 4..] == ".png"
    ensures AllDigits(r[|prefix| + 1..|r| - 4]) && ParseDecimal(r[|prefix| + 1..|r| - 4]) == savedIdx
  {
    var digits := Format06(savedIdx);
    SixDigitsBelowAMillion(savedIdx);
    var r := prefix + "_" + digits + ".png";
    assert r[|prefix| + 1..|r| - 4] == digits;
    r
  }

  /** The name of the sixth saved frame with the default prefix. */
  lemma FrameNameExample()
    ensures FrameName("frame", 5) == "frame_000005.png"
  {
    Format06Examples();
    assert FrameName("frame", 5) == "frame" + "_" + "000005" + ".png";
  }

  /** Distinct saved indices give distinct file names, so a kept frame never replaces another. */
  lemma FrameNameInjective(prefix: string, a: nat, b: nat)
    requires FrameName(prefix, a) == FrameName(prefix, b)
    ensures a == b
  {
  }

  /** The save of the frame given saved index `savedIdx`. */
  function FrameWrite<Frame>(outputDir: string, prefix: string, savedIdx: nat, frame: Frame): Write<Frame> {
    Write(FilePath(outputDir, FrameName(prefix, savedIdx)), frame)
  }

  /**
   The saves made while the loop walks the first `n` frames, one frame at a
   time: a kept frame is saved under the number of saves before it.
   */
  ghost function SavedFrames<Frame>(outputDir: string, prefix: string, results: seq<Option<Frame>>,
                                    step: int, n: nat): seq<Write<Frame>>
    requires step >= 1 && n <= FirstFailure(results)
  {
    if n == 0 then []
    else
      var before := SavedFrames(outputDir, prefix, results, step, n - 1);
      if (n - 1) % step == 0 then before + [FrameWrite(outputDir, prefix, |before|, results[n - 1].value)]
      else before
  }

  /** Walking past frame `n` saves it, under the number of saves so far, exactly when it is kept. */
  lemma SavedFramesStep<Frame>(outputDir: string, prefix: string, results: seq<Option<Frame>>, step: int, n: nat)
    requires step >= 1 && n < FirstFailure(results)
    ensures var before := SavedFrames(outputDir, prefix, results, step, n);
      SavedFrames(outputDir, prefix, results, step, n + 1)
      == if n % step == 0 then before + [FrameWrite(outputDir, prefix, |before|, results[n].value)] else before
  {
  }

  /** The loop saves one frame per multiple of `step` it walks past. */
  lemma {:induction false} SavedFramesCount<Frame>(outputDir: string, prefix: string,
                                                   results: seq<Option<Frame>>, step: int, n: nat)
    requires step >= 1 && n <= FirstFailure(results)
    ensures |SavedFrames(outputDir, prefix, results, step, n)| == CountMultiples(n, step)
  {
    if n > 0 {
      SavedFramesCount(outputDir, prefix, results, step, n - 1);
    }
  }

  /** Frame `m`, a multiple of `step`, is preceded by exactly m / step kept frames. */
  lemma KeptFrameNumber(m: nat, step: int)
    requires step >= 1 && m % step == 0
    ensures CountMultiples(m, step) * step == m
  {
    CountMultiplesClosedForm(m, step);
    CeilDivOfMultiple(m, step);
  }

  /** The frame saved under index `k`: frame number k * step. */
  function KeptFrame<Frame>(results: seq<Option<Frame>>, step: int, k: nat): Frame
    requires step >= 1 && k * step < FirstFailure(results)
  {
    results[k * step].value
  }

  /** Saved index `k` holds frame k * step, under the name for index `k`. */
  lemma {:induction false} SavedFramesEntries<Frame>(outputDir: string, prefix: string,
                                                     results: seq<Option<Frame>>, step: int, n: nat)
    requires step >= 1 && n <= FirstFailure(results)
    ensures var saved := SavedFrames(outputDir, prefix, results, step, n);
      forall k :: 0 <= k < |saved| ==>
        k * step < n && saved[k] == FrameWrite(outputDir, prefix, k, KeptFrame(results, step, k))
  {
    if n > 0 {
      var before := SavedFrames(outputDir, prefix, results, step, n - 1);
      var saved := SavedFrames(outputDir, prefix, results, step, n);
      SavedFramesEntries(outputDir, prefix, results, step, n - 1);
      if (n - 1) % step == 0 {
        var c := |before|;
        SavedFramesCount(outputDir, prefix, results, step, n - 1);
        KeptFrameNumber(n - 1, step);
        assert c * step == n - 1;
        assert saved == before + [FrameWrite(outputDir, prefix, c, results[n - 1].value)];
        forall k | 0 <= k < |saved|
          ensures k * step < n && saved[k] == FrameWrite(outputDir, prefix, k, KeptFrame(results, step, k))
        {
          if k < c {
            assert saved[k] == before[k];
          } else {
            assert k == c && saved[k] == FrameWrite(outputDir, prefix, c, results[n - 1].value);
          }
        }
      } else {
        assert saved == before;
      }
    }
  }

  /**
   After `n` frames exactly ceil(n / step) frames are saved, and saved index
   `k` holds frame k * step under the name for index `k`.
   */
  lemma SavedFramesClosedForm<Frame>(outputDir: string, prefix: string,
                                     results: seq<Option<Frame>>, step: int, n: nat)
    requires step >= 1 && n <= FirstFailure(results)
    ensures var saved := SavedFrames(outputDir, prefix, results, step, n);
      |saved| == CeilDiv(n, step)
      && forall k :: 0 <= k < |saved| ==>
           k * step < n && saved[k] == FrameWrite(outputDir, prefix, k, KeptFrame(results, step, k))
  {
    SavedFramesCount(outputDir, prefix, results, step, n);
    CountMultiplesClosedForm(n, step);
    SavedFramesEntries(outputDir, prefix, results, step, n);
  }

  /**
   Frame `i`, one of the frames read, is saved exactly when i % step == 0, and
   then under saved index i / step.
   */
  lemma SavedIffKept<Frame>(outputDir: string, prefix: string, results: seq<Option<Frame>>, step: int, i: nat)
    requires step >= 1 && i < FirstFailure(results)
    ensures var saved := SavedFrames(outputDir, prefix, results, step, FirstFailure(results));
      (i % step == 0 <==> exists k :: 0 <= k < |saved| && k * step == i)
      && (i % step == 0 ==> i / step < |saved| && saved[i / step] == FrameWrite(outputDir, prefix, i / step, results[i].value))
  {
    var saved := SavedFrames(outputDir, prefix, results, step, FirstFailure(results));
    SavedFramesClosedForm(outputDir, prefix, results, step, FirstFailure(results));
    if i % step == 0 {
      KeptFrameIndex(FirstFailure(results), step, i);
      assert (i / step) * step == i;
    } else {
      forall k | 0 <= k < |saved| ensures k * step != i {
        if k * step == i {
          DivUnique(i, step, k, 0);
        }
      }
    }
  }

  /**
   Reading stops at the first failed read: streams that agree up to it, the
   failure included, give the same saves, whatever follows.
   */
  lemma FramesAfterFailureIgnored<Frame>(outputDir: string, prefix: string, results: seq<Option<Frame>>,
                                         results': seq<Option<Frame>>, step: int)
    requires step >= 1
    requires FirstFailure(results) <= |results'|
    requires forall i :: 0 <= i < FirstFailure(results) ==> results'[i] == results[i]
    requires FirstFailure(results) < |results'| ==> results'[FirstFailure(results)].None?
    ensures FirstFailure(results') == FirstFailure(results)
    ensures SavedFrames(outputDir, prefix, results', step, FirstFailure(results))
         == SavedFrames(outputDir, prefix, results, step, FirstFailure(results))
  {
    var n, n' := FirstFailure(results), FirstFailure(results');
    if n' < n {
      assert false;
    } else if n < n' {
      assert false;
    }
    SavedFramesAgree(outputDir, prefix, results, results', step, n);
  }

  /** The saves over the first `m` frames depend on those frames only. */
  lemma {:induction false} SavedFramesAgree<Frame>(outputDir: string, prefix: string, results: seq<Option<Frame>>,
                                                   results': seq<Option<Frame>>, step: int, m: nat)
    requires step >= 1 && m <= FirstFailure(results) && m <= FirstFailure(results')
    requires forall i :: 0 <= i < m ==> results'[i] == results[i]
    ensures SavedFrames(outputDir, prefix, results', step, m) == SavedFrames(outputDir, prefix, results, step, m)
  {
    if m > 0 {
      SavedFramesAgree(outputDir, prefix, results, results', step, m - 1);
    }
  }

  /** No two saves share a file name, so every saved frame is still on disk at the end. */
  lemma SavedFramesAllKept<Frame>(fs: map<FilePath, Frame>, outputDir: string, prefix: string,
                                  results: seq<Option<Frame>>, step: int, n: nat)
    requires step >= 1 && n <= FirstFailure(results)
    ensures var saved := SavedFrames(outputDir, prefix, results, step, n);
      forall k :: 0 <= k < |saved| ==> saved[k].path in Apply(fs, saved) && Apply(fs, saved)[saved[k].path] == saved[k].content
  {
    var saved := SavedFrames(outputDir, prefix, results, step, n);
    SavedFramesClosedForm(outputDir, prefix, results, step, n);
    forall i, j | 0 <= i < j < |saved| ensures saved[i].path != saved[j].path {
      if saved[i].path == saved[j].path {
        FrameNameInjective(prefix, i, j);
      }
    }
    ApplyDistinctTargets(fs, saved);
  }

  /**
   `video_to_frames`: fail when the video cannot be opened; otherwise read
   frames until a read fails, saving frame `frameIdx` when it is a multiple of
   `step`, under the next saved index.
   */
  method VideoToFrames<Frame>(videoPath: string, cap: Capture<Frame>, outputDir: string, fs: map<FilePath, Frame>,
                              prefix: string := "frame", step: int := 1)
    returns (outcome: Outcome, log: seq<Write<Frame>>, fs': map<FilePath, Frame>)
    requires step >= 1
    ensures !cap.isOpened ==> outcome == CannotOpen("Cannot open video: " + videoPath) && log == [] && fs' == fs
    ensures cap.isOpened ==> log == SavedFrames(outputDir, prefix, cap.results, step, FirstFailure(cap.results))
    ensures cap.isOpened ==> outcome == Saved(|log|)
    ensures cap.isOpened ==> outcome == Saved(CeilDiv(FirstFailure(cap.results), step))
    ensures fs' == Apply(fs, log)
  {
    if !cap.isOpened {
      return CannotOpen("Cannot open video: " + videoPath), [], fs;
    }
    ghost var frameCount := FirstFailure(cap.results);
    var frameIdx: nat := 0;
    var savedIdx: nat := 0;
    log, fs' := [], fs;
    while true
      invariant frameIdx <= frameCount
      invariant savedIdx == |log|
      invariant log == SavedFrames(outputDir, prefix, cap.results, step, frameIdx)
      invariant fs' == Apply(fs, log)
      decreases |cap.results| - frameIdx
    {
      if frameIdx == |cap.results| || cap.results[frameIdx].None? {
        break;
      }
      var frame := cap.results[frameIdx].value;
      assert frameIdx < frameCount by {
        assert frameIdx < |cap.results| && cap.results[frameIdx].Some?;
        assert frameCount < |cap.results| ==> cap.results[frameCount].None?;
      }
      SavedFramesStep(outputDir, prefix, cap.results, step, frameIdx);
      if frameIdx % step == 0 {
        var filename := FrameName(prefix, savedIdx);
        var save := Write(FilePath(outputDir, filename), frame);
        ApplySnoc(fs, log, save);
        fs' := fs'[save.path := save.content];
        log := log + [save];
        savedIdx := savedIdx + 1;
      }
      frameIdx := frameIdx + 1;
    }
    assert frameIdx == frameCount by {
      assert frameIdx == |cap.results| || cap.results[frameIdx].None?;
      assert forall i :: 0 <= i < frameCount ==> cap.results[i].Some?;
    }
    SavedFramesClosedForm(outputDir, prefix, cap.results, step, frameCount);
    outcome := Saved(savedIdx);
  }
}
