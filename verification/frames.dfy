/**
 * Frame sampling of the video pre-processing step: which frames of a video are saved, under which names, and
 * which errors stop the extraction. Reading and writing images is abstracted: a video is its number of
 * readable frames.
 */
module Frames {
  import opened Text

  /** Python's `int(x)` on a float: truncation toward zero. */
  function Trunc(x: real): (r: int)
    ensures 0.0 <= x ==> r >= 0 && r as real <= x < r as real + 1.0
    ensures x < 0.0 ==> r <= 0 && r as real - 1.0 < x <= r as real
  {
    if x >= 0.0 then x.Floor else -((-x).Floor)
  }

  /** The frame interval, or the `ZeroDivisionError` of dividing by a frame rate of 0. */
  datatype Interval = Every(n: int) | DivisionByZero

  /** `int(video_fps / fps) if fps < video_fps else 1` */
  function FrameInterval(videoFps: real, fps: int): Interval {
    if (fps as real) < videoFps then
      if fps == 0 then DivisionByZero else Every(Trunc(videoFps / fps as real))
    else Every(1)
  }

  /** For a positive requested rate the interval is at least 1: the whole number of video frames per requested
      frame when the video is faster, every frame otherwise. */
  lemma {:induction false} IntervalOfPositiveRate(videoFps: real, fps: int)
    requires fps > 0
    ensures FrameInterval(videoFps, fps).Every?
    ensures var n := FrameInterval(videoFps, fps).n;
      && n >= 1
      && ((fps as real) < videoFps ==> (n as real) * (fps as real) <= videoFps < ((n + 1) as real) * (fps as real))
      && (videoFps <= fps as real ==> n == 1)
  {
    if (fps as real) < videoFps {
      var n := Trunc(videoFps / fps as real);
      QuotientBracket(videoFps, fps as real, n);
    }
  }

  /** The truncated quotient of a faster rate by a slower one is at least 1 and brackets the faster rate between two
      multiples of the slower. */
  lemma {:induction false} QuotientBracket(a: real, f: real, n: int)
    requires 0.0 < f < a && n == Trunc(a / f)
    ensures n >= 1 && (n as real) * f <= a < ((n + 1) as real) * f
  {
    var q := a / f;
    QuotientAboveOne(a, f);
    assert n as real > q - 1.0 > 0.0;
    assert n >= 1;
    var lo, hi := n as real, (n + 1) as real;
    ScaleBracket(q, f, lo, hi);
    assert q * f == a;
    assert q * f < hi * f;
    assert a < hi * f;
    assert lo * f <= a;
  }

  /** Dividing by a smaller positive rate gives a quotient above 1 that scales back to the dividend. */
  lemma {:induction false} QuotientAboveOne(a: real, f: real)
    requires 0.0 < f < a
    ensures (a / f) * f == a && a / f > 1.0
  {
  }

  /** Scaling by a positive factor keeps a bracket. */
  lemma {:induction false} ScaleBracket(q: real, f: real, lo: real, hi: real)
    requires f > 0.0 && lo <= q < hi
    ensures lo * f <= q * f < hi * f
  {
    assert (q - lo) * f >= 0.0;
    assert (hi - q) * f > 0.0;
  }

  /** `frame_count % frame_interval == 0`: Python's remainder is zero exactly when the interval divides the count,
      as Dafny's is. */
  predicate Picked(i: nat, interval: int)
    requires interval != 0
  {
    i % interval == 0
  }

  /** The distance between two saved frames. */
  function Stride(interval: int): nat {
    if interval < 0 then -interval else interval
  }

  /** `f"frame_{saved_count:05d}.{output_format}"` */
  function FrameName(format: string, m: nat): string {
    "frame_" + ZeroPad(NatToString(m), 5) + "." + format
  }

  /** The path of a saved frame inside the output directory. */
  function FramePath(dir: string, format: string, m: nat): string {
    dir + "/" + FrameName(format, m)
  }

  /** The outcome of the loop: the saved paths, the indices of the saved frames, and whether the loop stopped with a
      `ZeroDivisionError` (an interval of 0 meets its first frame). */
  datatype Saving = Saving(paths: seq<string>, picked: seq<nat>, divided: bool)

  /** The reading loop of `extract` over a video of `total` frames. */
  method SaveFrames(total: nat, interval: int, dir: string, format: string) returns (r: Saving)
    ensures r.divided <==> interval == 0 && total > 0
    ensures interval == 0 ==> r.paths == [] && r.picked == []
    ensures interval != 0 ==>
      && |r.paths| == |r.picked|
      && (|r.picked| - 1) * Stride(interval) < total <= |r.picked| * Stride(interval)
      && (forall m :: 0 <= m < |r.picked| ==> r.picked[m] == m * Stride(interval))
      && (forall m :: 0 <= m < |r.paths| ==> r.paths[m] == FramePath(dir, format, m))
  {
    if interval == 0 {
      return Saving([], [], total > 0);
    }
    var d := Stride(interval);
    var paths: seq<string> := [];
    var picked: seq<nat> := [];
    var i: nat := 0;
    while i < total
      invariant i <= total
      invariant |paths| == |picked|
      invariant (|picked| - 1) * d < i <= |picked| * d
      invariant forall m :: 0 <= m < |picked| ==> picked[m] == m * d
      invariant forall m :: 0 <= m < |paths| ==> paths[m] == FramePath(dir, format, m)
    {
      PickedIsMultiple(i, interval);
      if i % interval == 0 {
        CountStepPicked(i, d, |picked|);
        paths := paths + [FramePath(dir, format, |picked|)];
        picked := picked + [i];
      } else {
        CountStepSkipped(i, d, |picked|);
      }
      i := i + 1;
    }
    return Saving(paths, picked, false);
  }

  lemma {:induction false} PickedIsMultiple(i: nat, interval: int)
    requires interval != 0
    ensures i % interval == 0 <==> i % Stride(interval) == 0
  {
    var d := Stride(interval);
    if interval < 0 {
      var q := i / interval;
      var r := i % interval;
      assert i == q * interval + r && 0 <= r < d;
      assert i == (-q) * d + r;
      DivModUnique(i, d, -q, r);
    }
  }

  lemma {:induction false} DivModUnique(i: nat, d: nat, q: int, r: int)
    requires d > 0 && i == q * d + r && 0 <= r < d
    ensures i % d == r
  {
    var q', r' := i / d, i % d;
    assert i == q' * d + r';
    var k := q' - q;
    assert k * d == r - r';
    assert k >= 1 ==> k * d >= d;
    assert k <= -1 ==> k * d + d <= 0;
  }

  /** A frame the loop saves is the next multiple of the stride. */
  lemma {:induction false} CountStepPicked(i: nat, d: nat, c: nat)
    requires d > 0 && (c - 1) * d < i <= c * d && i % d == 0
    ensures i == c * d && c * d < i + 1 <= (c + 1) * d
  {
    var q := i / d;
    assert i == q * d;
    var k := q - c;
    assert k * d == i - c * d;
    assert k >= 1 ==> k * d >= d;
    assert k <= -1 ==> k * d + d <= 0;
  }

  /** A frame the loop skips lies strictly between two multiples of the stride. */
  lemma {:induction false} CountStepSkipped(i: nat, d: nat, c: nat)
    requires d > 0 && (c - 1) * d < i <= c * d && i % d != 0
    ensures (c - 1) * d < i + 1 <= c * d
  {
    if i == c * d {
      DivModUnique(i, d, c, 0);
    }
  }

  /** The frames saved from a video of `total` frames are exactly those whose index the interval divides. */
  lemma {:induction false} SavedAreMultiples(total: nat, interval: int, picked: seq<nat>)
    requires interval != 0
    requires (|picked| - 1) * Stride(interval) < total <= |picked| * Stride(interval)
    requires forall m :: 0 <= m < |picked| ==> picked[m] == m * Stride(interval)
    ensures forall i: nat :: i in picked <==> i < total && Picked(i, interval)
  {
    forall i: nat
      ensures i in picked <==> i < total && Picked(i, interval)
    {
      PickedIsMultiple(i, interval);
      if i in picked {
        SavedIsMultiple(total, Stride(interval), picked, i);
      }
      if i < total && i % Stride(interval) == 0 {
        MultipleIsSaved(total, Stride(interval), picked, i);
      }
    }
  }

  lemma {:induction false} SavedIsMultiple(total: nat, d: nat, picked: seq<nat>, i: nat)
    requires d > 0 && (|picked| - 1) * d < total
    requires forall m :: 0 <= m < |picked| ==> picked[m] == m * d
    requires i in picked
    ensures i < total && i % d == 0
  {
    var m :| 0 <= m < |picked| && picked[m] == i;
    assert (|picked| - 1 - m) * d >= 0;
    DivModUnique(i, d, m, 0);
  }

  lemma {:induction false} MultipleIsSaved(total: nat, d: nat, picked: seq<nat>, i: nat)
    requires d > 0 && total <= |picked| * d
    requires forall m :: 0 <= m < |picked| ==> picked[m] == m * d
    requires i < total && i % d == 0
    ensures i in picked
  {
    var m := i / d;
    assert i == m * d;
    assert (|picked| - m) * d > 0;
    assert picked[m] == i;
  }

  // ---------------------------------------------------------------------------------------
  // Distinct names

  /** The number a text of decimal digits denotes. */
  function DigitsValue(s: string): nat
    decreases |s|
  {
    if s == [] then 0
    else
      var c := s[|s| - 1];
      DigitsValue(s[..|s| - 1]) * 10 + (if '0' <= c <= '9' then c as int - '0' as int else 0)
  }

  /** Reading back the decimal rendering of a number gives the number. */
  lemma {:induction false} NatToStringValue(n: nat)
    ensures DigitsValue(NatToString(n)) == n
    decreases n
  {
    var s := NatToString(n);
    if n < 10 {
      assert s[..|s| - 1] == [];
    } else {
      NatToStringValue(n / 10);
      assert s[..|s| - 1] == NatToString(n / 10);
      assert s[|s| - 1] == DigitChar(n % 10);
    }
  }

  /** Leading zeros do not change the number a text of digits denotes. */
  lemma {:induction false} LeadingZerosValue(z: string, s: string)
    requires forall i :: 0 <= i < |z| ==> z[i] == '0'
    ensures DigitsValue(z + s) == DigitsValue(s)
    decreases |s|
  {
    if s == [] {
      assert z + s == z;
      ZerosValue(z);
    } else {
      var t := z + s;
      assert t[..|t| - 1] == z + s[..|s| - 1];
      assert t[|t| - 1] == s[|s| - 1];
      LeadingZerosValue(z, s[..|s| - 1]);
    }
  }

  lemma {:induction false} ZerosValue(z: string)
    requires forall i :: 0 <= i < |z| ==> z[i] == '0'
    ensures DigitsValue(z) == 0
    decreases |z|
  {
    if z != [] {
      ZerosValue(z[..|z| - 1]);
    }
  }

  /** The zero-padded counter in a frame name reads back as the counter. */
  lemma {:induction false} PaddedValue(m: nat)
    ensures DigitsValue(ZeroPad(NatToString(m), 5)) == m
  {
    var s := NatToString(m);
    var p := ZeroPad(s, 5);
    var z := p[..|p| - |s|];
    assert p == z + s;
    LeadingZerosValue(z, s);
    NatToStringValue(m);
  }

  /** Two saved frames never share a file: different counters give different names. */
  lemma {:induction false} FrameNamesDistinct(format: string, m1: nat, m2: nat)
    requires m1 != m2
    ensures FrameName(format, m1) != FrameName(format, m2)
  {
    var p1, p2 := ZeroPad(NatToString(m1), 5), ZeroPad(NatToString(m2), 5);
    if FrameName(format, m1) == FrameName(format, m2) {
      SameFrame(p1, p2, format);
      PaddedValue(m1);
      PaddedValue(m2);
    }
  }

  lemma {:induction false} SameFrame(p1: string, p2: string, format: string)
    requires "frame_" + p1 + "." + format == "frame_" + p2 + "." + format
    ensures p1 == p2
  {
    var n1, n2 := "frame_" + p1 + "." + format, "frame_" + p2 + "." + format;
    assert |p1| == |p2|;
    assert forall i :: 0 <= i < |p1| ==> p1[i] == n1[6 + i] && p2[i] == n2[6 + i];
  }

  // ---------------------------------------------------------------------------------------
  // The whole extraction

  /** What `extract` returns or raises. */
  datatype Extraction = Saved(paths: seq<string>) | FileNotFound | CouldNotOpen | ZeroDivision

  /** The outcome of `extract`, with whether the output directory was created on the way. */
  datatype Outcome = Outcome(madeDir: bool, result: Extraction)

  /** `FrameExtractor(output_dir, output_format).extract(video_path, fps)`: `found` and `opens` say whether the
      video file exists and can be opened, `videoFps` is its frame rate and `total` its number of readable frames;
      `dir` stands for the absolute output directory. */
  method Extract(found: bool, opens: bool, videoFps: real, fps: int, total: nat, dir: string, format: string)
    returns (r: Outcome)
    ensures r.result == FileNotFound <==> !found
    ensures r.madeDir <==> found
    ensures r.result == CouldNotOpen <==> found && !opens
    ensures r.result.Saved? ==> found && opens && FrameInterval(videoFps, fps).Every?
    ensures found && opens && fps > 0 ==> r.result.Saved?
    ensures r.result.Saved? ==>
      var interval := FrameInterval(videoFps, fps).n;
      && (interval == 0 ==> total == 0 && r.result.paths == [])
      && (interval != 0 ==>
          && (|r.result.paths| - 1) * Stride(interval) < total <= |r.result.paths| * Stride(interval)
          && (forall m :: 0 <= m < |r.result.paths| ==> r.result.paths[m] == FramePath(dir, format, m)))
  {
    if !found {
      return Outcome(false, FileNotFound);
    }
    if !opens {
      return Outcome(true, CouldNotOpen);
    }
    if fps > 0 {
      IntervalOfPositiveRate(videoFps, fps);
    }
    var interval := FrameInterval(videoFps, fps);
    if interval.DivisionByZero? {
      return Outcome(true, ZeroDivision);
    }
    var s := SaveFrames(total, interval.n, dir, format);
    if s.divided {
      return Outcome(true, ZeroDivision);
    }
    return Outcome(true, Saved(s.paths));
  }

  /** At a requested rate of 2 frames per second, a 30 frames-per-second video keeps every 15th frame. */
  lemma {:induction false} EveryFifteenth()
    ensures FrameInterval(30.0, 2) == Every(15)
  {
    assert 30.0 / 2 as real == 15.0;
  }
}
