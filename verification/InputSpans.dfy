/**
  Compression of predicted inputs into spans of frames with one mask of held buttons each
  (scripts/nsmb_mvl_ai_predict_input_script.py).
*/
module InputSpans {
  datatype Prediction = Prediction(frame: int, held: nat)

  datatype Span = Span(start: int, end: int, held: nat)

  function Max(x: int, y: int): int { if x < y then y else x }

  /** The last frame a prediction holds for: up to the next one unless the gap to it is too large, the last one
      up to the end frame if there is one. */
  function EndOf(p: seq<Prediction>, i: nat, endFrame: int, maxGapFill: int): int
    requires i < |p|
  {
    if i + 1 < |p| then
      var next := p[i + 1].frame;
      if maxGapFill > 0 && next - p[i].frame > maxGapFill then p[i].frame else Max(p[i].frame, next - 1)
    else if endFrame > 0 then Max(p[i].frame, endFrame) else p[i].frame
  }

  predicate Increasing(p: seq<Prediction>) {
    forall i, j | 0 <= i < j < |p| :: p[i].frame < p[j].frame
  }

  /** Frame `f` is one prediction `i` holds for. */
  predicate Holds(p: seq<Prediction>, i: nat, endFrame: int, maxGapFill: int, f: int)
    requires i < |p|
  {
    p[i].frame <= f <= EndOf(p, i, endFrame, maxGapFill)
  }

  /** One of the first `n` predictions holds `held` at frame `f`. */
  predicate Wanted(p: seq<Prediction>, n: nat, endFrame: int, maxGapFill: int, f: int, held: nat)
    requires n <= |p|
  {
    exists i: nat | i < n :: Holds(p, i, endFrame, maxGapFill, f) && p[i].held == held
  }

  /** The prediction that holds at a frame is the latest one at or before it. */
  lemma HoldsIsLatest(p: seq<Prediction>, i: nat, endFrame: int, maxGapFill: int, f: int)
    requires Increasing(p) && i < |p| && Holds(p, i, endFrame, maxGapFill, f)
    ensures p[i].frame <= f && forall j: nat | j < |p| && p[j].frame <= f :: j <= i
  {
    forall j: nat | i < j < |p| ensures p[j].frame > f {
      assert p[i + 1].frame <= p[j].frame;
    }
  }

  predicate Covers(s: Span, f: int) { s.start <= f <= s.end }

  predicate In(spans: seq<Span>, f: int, held: nat) {
    exists k: nat | k < |spans| :: Covers(spans[k], f) && spans[k].held == held
  }

  /** Not empty, in order, disjoint, and no two that touch have the same mask. */
  predicate Normal(spans: seq<Span>) {
    && (forall k | 0 <= k < |spans| :: spans[k].start <= spans[k].end)
    && (forall j, k | 0 <= j < k < |spans| :: spans[j].end < spans[k].start)
    && (forall k | 0 < k < |spans| :: spans[k - 1].end + 1 == spans[k].start ==> spans[k - 1].held != spans[k].held)
  }

  lemma InAppended(spans: seq<Span>, s: Span, f: int, held: nat)
    ensures In(spans + [s], f, held) <==> In(spans, f, held) || (Covers(s, f) && s.held == held)
  {
    var all := spans + [s];
    assert all[|spans|] == s;
    assert forall k: nat | k < |spans| :: all[k] == spans[k];
  }

  lemma WantedMore(p: seq<Prediction>, n: nat, endFrame: int, maxGapFill: int, f: int, held: nat)
    requires n < |p|
    ensures Wanted(p, n + 1, endFrame, maxGapFill, f, held) <==>
            Wanted(p, n, endFrame, maxGapFill, f, held) || (Holds(p, n, endFrame, maxGapFill, f) && p[n].held == held)
  {
    hide Holds;
    if Wanted(p, n + 1, endFrame, maxGapFill, f, held) {
      var i: nat :| i < n + 1 && Holds(p, i, endFrame, maxGapFill, f) && p[i].held == held;
      assert i < n || i == n;
    }
  }

  /** `spans` is in normal form and says of the frames of the first `n` predictions what they say. */
  ghost predicate Compressed(spans: seq<Span>, p: seq<Prediction>, n: nat, endFrame: int, maxGapFill: int)
    requires n <= |p|
  {
    && Normal(spans)
    && (n == 0 ==> spans == [])
    && (n > 0 ==> spans != [] && spans[|spans| - 1].end == EndOf(p, n - 1, endFrame, maxGapFill)
                  && spans[|spans| - 1].held == p[n - 1].held)
    && forall f, held: nat :: In(spans, f, held) <==> Wanted(p, n, endFrame, maxGapFill, f, held)
  }

  lemma AppendKeeps(spans: seq<Span>, p: seq<Prediction>, n: nat, endFrame: int, maxGapFill: int)
    requires Increasing(p) && n < |p| && Compressed(spans, p, n, endFrame, maxGapFill)
    requires spans != [] && spans[|spans| - 1].held == p[n].held ==> spans[|spans| - 1].end + 1 < p[n].frame
    ensures Compressed(spans + [Span(p[n].frame, EndOf(p, n, endFrame, maxGapFill), p[n].held)], p, n + 1, endFrame, maxGapFill)
  {
    hide In, Wanted;
    var s := Span(p[n].frame, EndOf(p, n, endFrame, maxGapFill), p[n].held);
    forall f, held: nat
      ensures In(spans + [s], f, held) <==> Wanted(p, n + 1, endFrame, maxGapFill, f, held)
    {
      InAppended(spans, s, f, held);
      WantedMore(p, n, endFrame, maxGapFill, f, held);
    }
    if n > 0 {
      assert spans[|spans| - 1].end < p[n].frame;
    }
  }

  lemma MergeKeeps(spans: seq<Span>, p: seq<Prediction>, n: nat, endFrame: int, maxGapFill: int)
    requires Increasing(p) && n < |p| && Compressed(spans, p, n, endFrame, maxGapFill)
    requires spans != [] && spans[|spans| - 1].held == p[n].held && spans[|spans| - 1].end + 1 >= p[n].frame
    ensures var last, end := spans[|spans| - 1], EndOf(p, n, endFrame, maxGapFill);
            Compressed(spans[..|spans| - 1] + [Span(last.start, end, p[n].held)], p, n + 1, endFrame, maxGapFill)
  {
    hide In, Wanted;
    var front, last := spans[..|spans| - 1], spans[|spans| - 1];
    var s := Span(last.start, EndOf(p, n, endFrame, maxGapFill), p[n].held);
    assert spans == front + [last] && n > 0;
    assert last.end + 1 == p[n].frame;
    forall f, held: nat
      ensures In(front + [s], f, held) <==> Wanted(p, n + 1, endFrame, maxGapFill, f, held)
    {
      InAppended(front, s, f, held);
      InAppended(front, last, f, held);
      WantedMore(p, n, endFrame, maxGapFill, f, held);
    }
  }

  /** For predictions of increasing frames, the spans in normal form that hold at each frame the mask of the
      latest prediction there, where it reaches, and nothing elsewhere. */
  method CompressPredictions(predictions: seq<Prediction>, endFrame: int, maxGapFill: int) returns (spans: seq<Span>)
    ensures Increasing(predictions) ==> Compressed(spans, predictions, |predictions|, endFrame, maxGapFill)
  {
    hide Compressed, Increasing;
    spans := [];
    NothingCompressed(predictions, endFrame, maxGapFill);
    if predictions == [] { return; }
    for index := 0 to |predictions|
      invariant Increasing(predictions) ==> Compressed(spans, predictions, index, endFrame, maxGapFill)
    {
      var prediction := predictions[index];
      var spanEnd: int;
      if index + 1 < |predictions| {
        var nextFrame := predictions[index + 1].frame;
        var gap := nextFrame - prediction.frame;
        if maxGapFill > 0 && gap > maxGapFill {
          spanEnd := prediction.frame;
        } else {
          spanEnd := Max(prediction.frame, nextFrame - 1);
        }
      } else if endFrame > 0 {
        spanEnd := Max(prediction.frame, endFrame);
      } else {
        spanEnd := prediction.frame;
      }
      var n := |spans|;
      if n > 0 && spans[n - 1].held == prediction.held && spans[n - 1].end + 1 >= prediction.frame {
        if Increasing(predictions) {
          MergeKeeps(spans, predictions, index, endFrame, maxGapFill);
        }
        spans := spans[..n - 1] + [Span(spans[n - 1].start, spanEnd, prediction.held)];
      } else {
        if Increasing(predictions) {
          AppendKeeps(spans, predictions, index, endFrame, maxGapFill);
        }
        spans := spans + [Span(prediction.frame, spanEnd, prediction.held)];
      }
    }
  }

  lemma NothingCompressed(p: seq<Prediction>, endFrame: int, maxGapFill: int)
    ensures Compressed([], p, 0, endFrame, maxGapFill)
  {
  }

  // ----- the normal form is unique -----

  ghost predicate SameMasks(s: seq<Span>, t: seq<Span>) {
    forall f, held: nat :: In(s, f, held) <==> In(t, f, held)
  }

  lemma FirstFrame(s: seq<Span>, t: seq<Span>)
    requires Normal(s) && Normal(t) && s != [] && SameMasks(s, t)
    ensures t != [] && t[0].start <= s[0].start && (t[0].start == s[0].start ==> t[0].held == s[0].held)
  {
    assert Covers(s[0], s[0].start) && In(s, s[0].start, s[0].held);
    assert In(t, s[0].start, s[0].held);
    var k: nat :| k < |t| && Covers(t[k], s[0].start) && t[k].held == s[0].held;
    if k > 0 {
      assert t[0].end < t[k].start;
    }
  }

  lemma MaskEnds(s: seq<Span>)
    requires Normal(s) && s != []
    ensures !In(s, s[0].end + 1, s[0].held)
  {
    if |s| > 1 {
      assert s[0].end < s[1].start <= s[1].end;
      assert s[0].end + 1 == s[1].start ==> s[0].held != s[1].held;
      assert forall k | 1 < k < |s| :: s[1].end < s[k].start;
    }
  }

  lemma FirstEnd(s: seq<Span>, t: seq<Span>)
    requires Normal(s) && Normal(t) && s != [] && t != [] && SameMasks(s, t)
    requires t[0].start == s[0].start && t[0].held == s[0].held
    ensures t[0].end <= s[0].end
  {
    MaskEnds(s);
    assert !In(t, s[0].end + 1, t[0].held);
    assert !Covers(t[0], s[0].end + 1);
  }

  lemma RestSame(s: seq<Span>, t: seq<Span>, f: int, held: nat)
    requires Normal(s) && Normal(t) && s != [] && t != [] && s[0] == t[0]
    requires In(s, f, held) ==> In(t, f, held)
    ensures In(s[1..], f, held) ==> In(t[1..], f, held)
  {
    if In(s[1..], f, held) {
      var k: nat :| k < |s[1..]| && Covers(s[1..][k], f) && s[1..][k].held == held;
      assert s[k + 1] == s[1..][k] && s[0].end < s[k + 1].start;
      assert In(s, f, held);
      var j: nat :| j < |t| && Covers(t[j], f) && t[j].held == held;
      assert j > 0;
      assert t[1..][j - 1] == t[j];
    }
  }

  /** There is one way to write a compression: two in normal form that hold the same masks are equal. */
  lemma {:induction false} NormalFormIsUnique(s: seq<Span>, t: seq<Span>)
    requires Normal(s) && Normal(t) && SameMasks(s, t)
    ensures s == t
    decreases |s|
  {
    hide In;
    if s == [] {
      if t != [] {
        FirstFrame(t, s);
      }
    } else {
      FirstFrame(s, t);
      FirstFrame(t, s);
      FirstEnd(s, t);
      FirstEnd(t, s);
      forall f, held: nat ensures In(s[1..], f, held) <==> In(t[1..], f, held) {
        RestSame(s, t, f, held);
        RestSame(t, s, f, held);
      }
      NormalFormIsUnique(s[1..], t[1..]);
      assert s == [s[0]] + s[1..] && t == [t[0]] + t[1..];
    }
  }
}
