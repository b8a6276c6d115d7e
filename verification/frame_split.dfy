/**
 * Cutting the device output into frames. A `frame N` marker closes the frame
 * opened by the previous marker; the first marker closes nothing, and the
 * frame open when the output ends is never closed.
 */
module FrameSplit {
  import opened Wrappers
  import opened Dicts
  import opened ProfileErrors
  import opened TagMapping

  /** A device output line, already classified. */
  datatype LogLine =
    | FrameMarker(number: nat)
    | Sample(index: string, value: nat)
    | Other

  /** Tag to timer snapshot, in first-assignment order. */
  type Frame = Dict<string, nat>

  /** The loop state: finished frames, the frame being filled, markers seen so far. */
  datatype Scan = Scan(frames: seq<Frame>, tags: Frame, markers: nat)

  /** One iteration of the loop over the output lines. */
  function Step(m: Mapping, st: Scan, line: LogLine): Result<Scan, ProfileError>
  {
    match line
    case FrameMarker(_) =>
      if st.markers > 0 then Success(Scan(st.frames + [st.tags], [], st.markers + 1))
      else Success(st.(markers := st.markers + 1))
    case Sample(idx, v) =>
      (match Get(m, idx)
       case None => Failure(UnknownIndex(idx))
       case Some(tag) => Success(st.(tags := Put(st.tags, tag, v))))
    case Other => Success(st)
  }

  /** The loop over `lines` from state `st`. */
  function ScanFrom(m: Mapping, lines: seq<LogLine>, st: Scan): Result<Scan, ProfileError>
    decreases |lines|
  {
    if |lines| == 0 then Success(st)
    else
      var st' :- Step(m, st, lines[0]);
      ScanFrom(m, lines[1..], st')
  }

  /** Some sample line names an index the mapping does not have. */
  predicate HasUnknownIndex(m: Mapping, lines: seq<LogLine>) {
    exists i :: 0 <= i < |lines| && lines[i].Sample? && Get(m, lines[i].index).None?
  }

  /** Number of frame markers. */
  function Markers(lines: seq<LogLine>): nat
  {
    if |lines| == 0 then 0
    else (if lines[0].FrameMarker? then 1 else 0) + Markers(lines[1..])
  }

  /** Number of frames that get finalized: one fewer than the markers. */
  function FrameCount(lines: seq<LogLine>): nat
  {
    if Markers(lines) == 0 then 0 else Markers(lines) - 1
  }

  /**
   * The lines after the `k`-th frame marker and before the next one
   * (for `k == 0`, the lines before the first marker).
   */
  function Segment(lines: seq<LogLine>, k: nat): seq<LogLine>
    decreases |lines|
  {
    if |lines| == 0 then []
    else if lines[0].FrameMarker? then (if k == 0 then [] else Segment(lines[1..], k - 1))
    else if k == 0 then [lines[0]] + Segment(lines[1..], 0)
    else Segment(lines[1..], k)
  }

  /** Apply the samples of `seg` to `base` in order; a later sample of a tag overwrites. */
  function Fill(m: Mapping, base: Frame, seg: seq<LogLine>): Frame
    decreases |seg|
  {
    if |seg| == 0 then base
    else
      var next :=
        if seg[0].Sample? && Get(m, seg[0].index).Some?
        then Put(base, Get(m, seg[0].index).value, seg[0].value)
        else base;
      Fill(m, next, seg[1..])
  }

  /**
   * The reference for the `k`-th finalized frame: the samples between the
   * `k+1`-th and `k+2`-th markers, and for the first frame also every sample
   * before the first marker.
   */
  function RefFrame(m: Mapping, lines: seq<LogLine>, k: nat): Frame
  {
    Fill(m, [], FrameLines(lines, k))
  }

  /** The lines whose samples make up the `k`-th finalized frame. */
  function FrameLines(lines: seq<LogLine>, k: nat): seq<LogLine>
  {
    if k == 0 then Segment(lines, 0) + Segment(lines, 1) else Segment(lines, k + 1)
  }

  /** The frames of the log, or the first unknown index. */
  function SplitFrames(m: Mapping, lines: seq<LogLine>): (r: Result<seq<Frame>, ProfileError>)
    ensures r.Failure? <==> HasUnknownIndex(m, lines)
    ensures r.Failure? ==>
      && r.error.UnknownIndex?
      && exists i :: 0 <= i < |lines| && lines[i].Sample? && lines[i].index == r.error.index &&
           Get(m, r.error.index).None?
    ensures r.Success? ==> |r.value| == FrameCount(lines)
    ensures r.Success? ==> forall k :: 0 <= k < |r.value| ==> r.value[k] == RefFrame(m, lines, k)
  {
    var st0 := Scan([], [], 0);
    ScanErrors(m, lines, st0);
    var st :- ScanFrom(m, lines, st0);
    ScanBeforeFirst(m, lines, st0);
    Success(st.frames)
  }

  /** When the scan gets through, the frames are the ones it finalized. */
  lemma SplitIsScan(m: Mapping, lines: seq<LogLine>)
    requires ScanFrom(m, lines, Scan([], [], 0)).Success?
    ensures SplitFrames(m, lines) == Success(ScanFrom(m, lines, Scan([], [], 0)).value.frames)
  {
  }

  /** The scan fails exactly at an unknown index, and reports that index. */
  lemma {:induction false} ScanErrors(m: Mapping, lines: seq<LogLine>, st: Scan)
    ensures ScanFrom(m, lines, st).Failure? <==> HasUnknownIndex(m, lines)
    ensures ScanFrom(m, lines, st).Failure? ==>
      && ScanFrom(m, lines, st).error.UnknownIndex?
      && exists i :: 0 <= i < |lines| && lines[i].Sample? &&
           lines[i].index == ScanFrom(m, lines, st).error.index && Get(m, lines[i].index).None?
    decreases |lines|
  {
    if |lines| > 0 {
      var rest := lines[1..];
      assert forall i :: 0 <= i < |rest| ==> rest[i] == lines[i + 1];
      match Step(m, st, lines[0])
      case Failure(_) =>
        assert lines[0].Sample? && Get(m, lines[0].index).None?;
      case Success(st') =>
        ScanErrors(m, rest, st');
        if HasUnknownIndex(m, lines) {
          var i :| 0 <= i < |lines| && lines[i].Sample? && Get(m, lines[i].index).None?;
          assert i > 0;
          assert rest[i - 1] == lines[i];
        }
        if ScanFrom(m, rest, st').Failure? {
          var i :| 0 <= i < |rest| && rest[i].Sample? &&
            rest[i].index == ScanFrom(m, rest, st').error.index && Get(m, rest[i].index).None?;
          assert lines[i + 1] == rest[i];
        }
    }
  }

  /**
   * `r` is what scanning `lines` from `st` leaves once a marker has been seen:
   * the frames of `st`, then one frame per marker in `lines`, the first of
   * them completing `st.tags`.
   */
  predicate Emits(m: Mapping, lines: seq<LogLine>, st: Scan, r: Scan) {
    && |r.frames| == |st.frames| + Markers(lines)
    && r.frames[..|st.frames|] == st.frames
    && forall k :: 0 <= k < Markers(lines) ==>
         r.frames[|st.frames| + k] == Fill(m, if k == 0 then st.tags else [], Segment(lines, k))
  }

  /** From the first marker on, each marker emits the frame filled since the previous one. */
  lemma {:induction false} ScanAfterFirst(m: Mapping, lines: seq<LogLine>, st: Scan)
    requires st.markers > 0
    requires ScanFrom(m, lines, st).Success?
    ensures Emits(m, lines, st, ScanFrom(m, lines, st).value)
    decreases |lines|
  {
    if |lines| > 0 {
      var st' := Step(m, st, lines[0]).value;
      ScanAfterFirst(m, lines[1..], st');
      var r := ScanFrom(m, lines, st).value;
      assert r == ScanFrom(m, lines[1..], st').value;
      if lines[0].FrameMarker? {
        MarkerEmits(m, lines, st, r);
      } else {
        SampleEmits(m, lines, st, r);
      }
    }
  }

  /** A marker emits the frame being filled and starts an empty one. */
  lemma MarkerEmits(m: Mapping, lines: seq<LogLine>, st: Scan, r: Scan)
    requires |lines| > 0 && lines[0].FrameMarker? && st.markers > 0
    requires Emits(m, lines[1..], Step(m, st, lines[0]).value, r)
    ensures Emits(m, lines, st, r)
  {
    var st' := Step(m, st, lines[0]).value;
    assert st'.frames == st.frames + [st.tags];
    forall k | 0 <= k < Markers(lines)
      ensures r.frames[|st.frames| + k] == Fill(m, if k == 0 then st.tags else [], Segment(lines, k))
    {
      if k == 0 {
        assert r.frames[..|st'.frames|][|st.frames|] == st.tags;
      }
    }
    assert r.frames[..|st.frames|] == r.frames[..|st'.frames|][..|st.frames|];
  }

  /** A line other than a marker adds to the frame being filled. */
  lemma SampleEmits(m: Mapping, lines: seq<LogLine>, st: Scan, r: Scan)
    requires |lines| > 0 && !lines[0].FrameMarker?
    requires Step(m, st, lines[0]).Success?
    requires Emits(m, lines[1..], Step(m, st, lines[0]).value, r)
    ensures Emits(m, lines, st, r)
  {
    assert ([lines[0]] + Segment(lines[1..], 0))[1..] == Segment(lines[1..], 0);
  }

  /** Before the first marker, samples go into the frame the second marker will emit. */
  lemma {:induction false} ScanBeforeFirst(m: Mapping, lines: seq<LogLine>, st: Scan)
    requires st.markers == 0 && st.frames == []
    requires ScanFrom(m, lines, st).Success?
    ensures |ScanFrom(m, lines, st).value.frames| == FrameCount(lines)
    ensures forall k :: 0 <= k < FrameCount(lines) ==>
      ScanFrom(m, lines, st).value.frames[k] ==
        if k == 0 then Fill(m, st.tags, Segment(lines, 0) + Segment(lines, 1))
        else Fill(m, [], Segment(lines, k + 1))
    decreases |lines|
  {
    if |lines| > 0 {
      var rest := lines[1..];
      var st' := Step(m, st, lines[0]).value;
      var r := ScanFrom(m, lines, st).value;
      assert r == ScanFrom(m, rest, st').value;
      if lines[0].FrameMarker? {
        ScanAfterFirst(m, rest, st');
        assert Markers(lines) == 1 + Markers(rest);
        forall k | 0 <= k < FrameCount(lines)
          ensures r.frames[k] ==
            if k == 0 then Fill(m, st.tags, Segment(lines, 0) + Segment(lines, 1))
            else Fill(m, [], Segment(lines, k + 1))
        {
          assert Segment(lines, k + 1) == Segment(rest, k);
          if k == 0 {
            assert Segment(lines, 0) + Segment(lines, 1) == Segment(rest, 0);
          }
        }
      } else {
        ScanBeforeFirst(m, rest, st');
        SegmentsBeforeFirst(m, lines, st);
      }
    }
  }

  /** A non-marker line joins the segment before the first marker. */
  lemma SegmentsBeforeFirst(m: Mapping, lines: seq<LogLine>, st: Scan)
    requires |lines| > 0 && !lines[0].FrameMarker?
    requires Step(m, st, lines[0]).Success?
    ensures Markers(lines) == Markers(lines[1..])
    ensures forall k :: k > 0 ==> Segment(lines, k) == Segment(lines[1..], k)
    ensures Fill(m, st.tags, Segment(lines, 0) + Segment(lines, 1)) ==
      Fill(m, Step(m, st, lines[0]).value.tags, Segment(lines[1..], 0) + Segment(lines[1..], 1))
  {
    var rest := lines[1..];
    assert ([lines[0]] + Segment(rest, 0) + Segment(rest, 1))[1..] == Segment(rest, 0) + Segment(rest, 1);
  }

  /** The value of the last sample in `seg` whose index maps to tag `t`. */
  function LastValue(m: Mapping, seg: seq<LogLine>, t: string): Option<nat>
  {
    if |seg| == 0 then None
    else
      var last := seg[|seg| - 1];
      if last.Sample? && Get(m, last.index) == Some(t) then Some(last.value)
      else LastValue(m, seg[..|seg| - 1], t)
  }

  lemma {:induction false} FillAppend(m: Mapping, base: Frame, a: seq<LogLine>, b: seq<LogLine>)
    ensures Fill(m, base, a + b) == Fill(m, Fill(m, base, a), b)
    decreases |a|
  {
    if |a| > 0 {
      assert (a + b)[1..] == a[1..] + b;
      var next :=
        if a[0].Sample? && Get(m, a[0].index).Some?
        then Put(base, Get(m, a[0].index).value, a[0].value)
        else base;
      FillAppend(m, next, a[1..], b);
    } else {
      assert a + b == b;
    }
  }

  /**
   * A frame holds, for each tag, the value of the last sample of that tag:
   * a later sample overwrites an earlier one, and a tag no sample names keeps
   * whatever `base` had.
   */
  lemma {:induction false} FillLookup(m: Mapping, base: Frame, seg: seq<LogLine>, t: string)
    ensures Get(Fill(m, base, seg), t) ==
      if LastValue(m, seg, t).Some? then LastValue(m, seg, t) else Get(base, t)
    decreases |seg|
  {
    if |seg| > 0 {
      var init := seg[..|seg| - 1];
      var last := seg[|seg| - 1];
      FillSnoc(m, base, seg);
      FillLookup(m, base, init, t);
      FillOne(m, Fill(m, base, init), last, t);
      LastValueSnoc(m, seg, t);
    }
  }

  /** Filling all of `seg` is filling all but its last line, then that line. */
  lemma FillSnoc(m: Mapping, base: Frame, seg: seq<LogLine>)
    requires |seg| > 0
    ensures Fill(m, base, seg) == Fill(m, Fill(m, base, seg[..|seg| - 1]), [seg[|seg| - 1]])
  {
    assert seg == seg[..|seg| - 1] + [seg[|seg| - 1]];
    FillAppend(m, base, seg[..|seg| - 1], [seg[|seg| - 1]]);
  }

  /** The last value of a tag is in the last line, or else earlier. */
  lemma LastValueSnoc(m: Mapping, seg: seq<LogLine>, t: string)
    requires |seg| > 0
    ensures LastValue(m, seg, t) ==
      if seg[|seg| - 1].Sample? && Get(m, seg[|seg| - 1].index) == Some(t) then Some(seg[|seg| - 1].value)
      else LastValue(m, seg[..|seg| - 1], t)
  {
  }

  /** One more line overwrites the tag its sample maps to, and nothing else. */
  lemma FillOne(m: Mapping, base: Frame, line: LogLine, t: string)
    ensures Get(Fill(m, base, [line]), t) ==
      if line.Sample? && Get(m, line.index) == Some(t) then Some(line.value) else Get(base, t)
  {
    assert [line][1..] == [];
  }

  lemma {:induction false} FillDistinct(m: Mapping, base: Frame, seg: seq<LogLine>)
    requires DistinctKeys(base)
    ensures DistinctKeys(Fill(m, base, seg))
    decreases |seg|
  {
    if |seg| > 0 {
      if seg[0].Sample? && Get(m, seg[0].index).Some? {
        PutDistinct(base, Get(m, seg[0].index).value, seg[0].value);
        FillDistinct(m, Put(base, Get(m, seg[0].index).value, seg[0].value), seg[1..]);
      } else {
        FillDistinct(m, base, seg[1..]);
      }
    }
  }

  /**
   * Each finalized frame maps a tag to the last value sampled for it among
   * the frame's lines, and has no other tags; its tags are distinct.
   */
  lemma FrameContents(m: Mapping, lines: seq<LogLine>, k: nat, t: string)
    requires SplitFrames(m, lines).Success?
    requires k < |SplitFrames(m, lines).value|
    ensures Get(SplitFrames(m, lines).value[k], t) == LastValue(m, FrameLines(lines, k), t)
    ensures DistinctKeys(SplitFrames(m, lines).value[k])
  {
    FillLookup(m, [], FrameLines(lines, k), t);
    FillDistinct(m, [], FrameLines(lines, k));
  }

  lemma {:induction false} ScanAppend(m: Mapping, a: seq<LogLine>, b: seq<LogLine>, st: Scan)
    ensures ScanFrom(m, a + b, st) ==
      match ScanFrom(m, a, st)
      case Failure(e) => Failure(e)
      case Success(s) => ScanFrom(m, b, s)
    decreases |a|
  {
    if |a| > 0 {
      assert (a + b)[1..] == a[1..] + b;
      if Step(m, st, a[0]).Success? {
        ScanAppend(m, a[1..], b, Step(m, st, a[0]).value);
      }
    } else {
      assert a + b == b;
    }
  }

  lemma {:induction false} ScanWithoutMarkers(m: Mapping, b: seq<LogLine>, st: Scan)
    requires Markers(b) == 0
    requires !HasUnknownIndex(m, b)
    ensures ScanFrom(m, b, st).Success?
    ensures ScanFrom(m, b, st).value.frames == st.frames
    decreases |b|
  {
    ScanErrors(m, b, st);
    if |b| > 0 {
      assert !HasUnknownIndex(m, b[1..]) by {
        forall i | 0 <= i < |b[1..]| && b[1..][i].Sample?
          ensures Get(m, b[1..][i].index).Some?
        {
          assert b[1..][i] == b[i + 1];
        }
      }
      ScanWithoutMarkers(m, b[1..], Step(m, st, b[0]).value);
    }
  }

  /**
   * Whatever follows the last marker is never finalized: appending lines
   * without a marker and without an unknown index changes nothing.
   */
  lemma TrailingLinesDiscarded(m: Mapping, lines: seq<LogLine>, tail: seq<LogLine>)
    requires Markers(tail) == 0
    requires !HasUnknownIndex(m, tail)
    ensures SplitFrames(m, lines + tail) == SplitFrames(m, lines)
  {
    var st0 := Scan([], [], 0);
    ScanAppend(m, lines, tail, st0);
    if ScanFrom(m, lines, st0).Success? {
      ScanWithoutMarkers(m, tail, ScanFrom(m, lines, st0).value);
    }
  }

  lemma {:induction false} ScanIgnoresMarkerNumber(m: Mapping, lines: seq<LogLine>, i: nat, n: nat, st: Scan)
    requires i < |lines| && lines[i].FrameMarker?
    ensures ScanFrom(m, lines[i := FrameMarker(n)], st) == ScanFrom(m, lines, st)
    decreases i
  {
    var lines' := lines[i := FrameMarker(n)];
    assert Step(m, st, lines'[0]) == Step(m, st, lines[0]);
    if i == 0 {
      assert lines'[1..] == lines[1..];
    } else {
      assert lines'[1..] == lines[1..][i - 1 := FrameMarker(n)];
      if Step(m, st, lines[0]).Success? {
        ScanIgnoresMarkerNumber(m, lines[1..], i - 1, n, Step(m, st, lines[0]).value);
      }
    }
  }

  /** The number written after `frame` plays no part: frames are numbered by position. */
  lemma MarkerNumberIgnored(m: Mapping, lines: seq<LogLine>, i: nat, n: nat)
    requires i < |lines| && lines[i].FrameMarker?
    ensures SplitFrames(m, lines[i := FrameMarker(n)]) == SplitFrames(m, lines)
  {
    ScanIgnoresMarkerNumber(m, lines, i, n, Scan([], [], 0));
  }
}
