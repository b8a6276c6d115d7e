/**
 * The whole reducer: build the index-to-tag mapping, cut the device output
 * into frames, reduce every frame, pick the worst case, and collect what the
 * three report files show (their layout and percentages aside).
 */
module ProfileLog {
  import opened Wrappers
  import opened Dicts
  import opened Text
  import opened ProfileErrors
  import opened TagMapping
  import opened FrameSplit
  import opened FrameSummary
  import opened WorstCase

  /** The content of the mapping file, the per-frame file and the worst-case file. */
  datatype Report = Report(
    mapping: Mapping,
    frames: seq<Summary>,
    worstFrame: nat,
    worstTotal: int,
    init: int,
    listing: Dict<string, int>)

  /**
   * The per-frame file shows every elapsed entry with its share of the frame
   * total, a division by that total: a frame with entries and a total of 0
   * cannot be written.
   */
  predicate DividesByZero(s: Summary) {
    |s.elapsed| > 0 && s.total == 0
  }

  /** Frame `frameNo` as the per-frame loop handles it: reduced, then written with its shares. */
  function WriteFrame(frame: Frame, frameNo: nat): Result<Summary, ProfileError>
  {
    var s :- Reduce(frame, frameNo);
    if DividesByZero(s) then Failure(ZeroTotal(frameNo)) else Success(s)
  }

  /**
   * A frame is written exactly when it closes every `start_` tag and its
   * share does not divide by zero; it is then its reduction. A frame that
   * does not close a tag fails as its reduction does, and one that divides
   * by zero fails with `ZeroTotal` and its number.
   */
  lemma WriteFrameOutcome(frame: Frame, frameNo: nat)
    ensures WriteFrame(frame, frameNo).Success? <==>
      EndsPresent(frame) && !DividesByZero(Reduce(frame, frameNo).value)
    ensures WriteFrame(frame, frameNo).Success? || !EndsPresent(frame) ==>
      WriteFrame(frame, frameNo) == Reduce(frame, frameNo)
    ensures WriteFrame(frame, frameNo).Failure? && EndsPresent(frame) ==>
      WriteFrame(frame, frameNo).error == ZeroTotal(frameNo)
  {
  }

  /** The frames before `n` can all be reduced and written. */
  predicate Writable(m: Mapping, log: seq<LogLine>, n: nat) {
    forall k :: 0 <= k < n ==>
      EndsPresent(RefFrame(m, log, k)) && !DividesByZero(Reduce(RefFrame(m, log, k), k).value)
  }

  /** Some finished frame that can be reduced has an init value. */
  predicate SomeInit(m: Mapping, log: seq<LogLine>) {
    exists k :: 0 <= k < FrameCount(log) &&
      EndsPresent(RefFrame(m, log, k)) && Reduce(RefFrame(m, log, k), k).value.init.Some?
  }

  /** The per-frame loop over `frames[k..]`; each frame is numbered by its position. */
  function SummarizeFrom(frames: seq<Frame>, k: nat): (r: Result<seq<Summary>, ProfileError>)
    requires k <= |frames|
    ensures r.Success? ==> AllWrittenFrom(frames, k, r.value)
    ensures r.Failure? ==> FirstFailureFrom(frames, k, r.error)
    decreases |frames| - k
  {
    if k == |frames| then Success([])
    else
      match WriteFrame(frames[k], k)
      case Failure(e) => Failure(e)
      case Success(s) =>
        match SummarizeFrom(frames, k + 1)
        case Failure(e) =>
          FailureAfter(frames, k, e);
          Failure(e)
        case Success(rest) =>
          WrittenCons(frames, k, s, rest);
          Success([s] + rest)
  }

  /** `sums` holds the written frames `k..`, in order. */
  ghost predicate AllWrittenFrom(frames: seq<Frame>, k: nat, sums: seq<Summary>) {
    && k <= |frames|
    && |sums| == |frames| - k
    && forall j :: k <= j < |frames| ==> WriteFrame(frames[j], j) == Success(sums[j - k])
  }

  /** `e` is the failure of the first of the frames `k..` that cannot be written. */
  ghost predicate FirstFailureFrom(frames: seq<Frame>, k: nat, e: ProfileError) {
    exists j :: k <= j < |frames| && WriteFrame(frames[j], j) == Failure(e) &&
      forall i :: k <= i < j ==> WriteFrame(frames[i], i).Success?
  }

  /** A failure among the frames after a written frame `k` is the first from `k` on. */
  lemma FailureAfter(frames: seq<Frame>, k: nat, e: ProfileError)
    requires k < |frames| && WriteFrame(frames[k], k).Success?
    requires FirstFailureFrom(frames, k + 1, e)
    ensures FirstFailureFrom(frames, k, e)
  {
    var j :| k + 1 <= j < |frames| && WriteFrame(frames[j], j) == Failure(e) &&
      forall i :: k + 1 <= i < j ==> WriteFrame(frames[i], i).Success?;
    assert forall i :: k <= i < j ==> WriteFrame(frames[i], i).Success?;
  }

  /** A written frame `k` followed by the written frames after it. */
  lemma WrittenCons(frames: seq<Frame>, k: nat, s: Summary, rest: seq<Summary>)
    requires k < |frames| && WriteFrame(frames[k], k) == Success(s)
    requires AllWrittenFrom(frames, k + 1, rest)
    ensures AllWrittenFrom(frames, k, [s] + rest)
  {
    forall j | k <= j < |frames|
      ensures WriteFrame(frames[j], j) == Success(([s] + rest)[j - k])
    {
      if j > k {
        assert ([s] + rest)[j - k] == rest[j - (k + 1)];
      }
    }
  }

  /** The frame totals, in frame order. */
  function Totals(summaries: seq<Summary>): (ts: seq<int>)
    ensures |ts| == |summaries|
    ensures forall k :: 0 <= k < |summaries| ==> ts[k] == summaries[k].total
  {
    if |summaries| == 0 then [] else [summaries[0].total] + Totals(summaries[1..])
  }

  /**
   * The running `init` value over frames `k..`: every frame with an init
   * value overwrites it, so the last such frame wins.
   */
  function InitFrom(summaries: seq<Summary>, k: nat, acc: Option<int>): (r: Option<int>)
    requires k <= |summaries|
    ensures (forall j :: k <= j < |summaries| ==> summaries[j].init.None?) ==> r == acc
    ensures (exists j :: k <= j < |summaries| && summaries[j].init.Some?) ==>
      exists j :: k <= j < |summaries| && summaries[j].init.Some? && summaries[j].init == r &&
        forall i :: j < i < |summaries| ==> summaries[i].init.None?
    decreases |summaries| - k
  {
    if k == |summaries| then acc
    else InitFrom(summaries, k + 1, if summaries[k].init.Some? then summaries[k].init else acc)
  }

  /** The init value the report shows: that of the last frame having one, if any. */
  function ReportedInit(summaries: seq<Summary>): (r: Option<int>)
    ensures r.None? <==> forall k :: 0 <= k < |summaries| ==> summaries[k].init.None?
    ensures r.Some? ==>
      exists k :: 0 <= k < |summaries| && summaries[k].init == r &&
        forall j :: k < j < |summaries| ==> summaries[j].init.None?
  {
    InitFrom(summaries, 0, None)
  }

  /** The worst-case listing: elapsed entries whose operation does not contain `init`, in order. */
  function Listing(elapsed: Dict<string, int>): Dict<string, int>
  {
    if |elapsed| == 0 then []
    else (if Contains(elapsed[0].0, "init") then [] else [elapsed[0]]) + Listing(elapsed[1..])
  }

  /** An entry is listed exactly when it is an elapsed entry whose operation does not contain `init`. */
  lemma {:induction false} ListingMembers(elapsed: Dict<string, int>)
    ensures forall x :: x in Listing(elapsed) <==> x in elapsed && !Contains(x.0, "init")
    decreases |elapsed|
  {
    if |elapsed| > 0 {
      ListingMembers(elapsed[1..]);
      assert forall x :: x in elapsed <==> x == elapsed[0] || x in elapsed[1..];
    }
  }

  /** The listing keeps the order of the elapsed entries: it filters each part of a split alike. */
  lemma {:induction false} ListingAppend(a: Dict<string, int>, b: Dict<string, int>)
    ensures Listing(a + b) == Listing(a) + Listing(b)
    decreases |a|
  {
    if |a| == 0 {
      assert a + b == b;
    } else {
      var kept := if Contains(a[0].0, "init") then [] else [a[0]];
      assert (a + b)[0] == a[0] && (a + b)[1..] == a[1..] + b;
      assert Listing(a + b) == kept + Listing(a[1..] + b);
      ListingAppend(a[1..], b);
      assert kept + (Listing(a[1..]) + Listing(b)) == (kept + Listing(a[1..])) + Listing(b);
    }
  }

  /**
   * What a report shows, tied to the source declarations and the device
   * output: the mapping of the source; one summary per finished frame, each
   * the reduction of its reference frame and writable; an earliest-maximum
   * worst frame with its total; the init value of the last frame having one;
   * and the worst frame's entries whose operation does not contain `init`.
   */
  ghost predicate Reported(src: seq<SourceLine>, log: seq<LogLine>, rep: Report) {
    && BuildMapping(src) == Success(rep.mapping)
    && |rep.frames| == FrameCount(log)
    && (forall k :: 0 <= k < |rep.frames| ==>
          Reduce(RefFrame(rep.mapping, log, k), k) == Success(rep.frames[k]) && !DividesByZero(rep.frames[k]))
    && EarliestMax(Totals(rep.frames), rep.worstFrame)
    && rep.worstTotal == rep.frames[rep.worstFrame].total
    && (exists k :: 0 <= k < |rep.frames| && rep.frames[k].init == Some(rep.init) &&
          forall j :: k < j < |rep.frames| ==> rep.frames[j].init.None?)
    && (forall x :: x in rep.listing <==> x in rep.frames[rep.worstFrame].elapsed && !Contains(x.0, "init"))
  }

  /** The reducer, from source declarations and device output lines to the report. */
  function ParseProfileLog(src: seq<SourceLine>, log: seq<LogLine>): (r: Result<Report, ProfileError>)
    ensures r.Success? ==> Reported(src, log, r.value)
  {
    var mapping :- BuildMapping(src);
    var frames :- SplitFrames(mapping, log);
    var summaries :- SummarizeFrom(frames, 0);
    var worst :- SelectWorst(Totals(summaries));
    var init := ReportedInit(summaries);
    if init.None? then Failure(InitUnset)
    else
      var rep := Report(
        mapping,
        summaries,
        worst,
        summaries[worst].total,
        init.value,
        Listing(summaries[worst].elapsed));
      ReportFacts(src, log, frames, rep);
      Success(rep)
  }

  /** The report assembled from the steps' results shows what `Reported` says. */
  lemma ReportFacts(src: seq<SourceLine>, log: seq<LogLine>, frames: seq<Frame>, rep: Report)
    requires BuildMapping(src) == Success(rep.mapping)
    requires SplitFrames(rep.mapping, log) == Success(frames)
    requires SummarizeFrom(frames, 0) == Success(rep.frames)
    requires SelectWorst(Totals(rep.frames)) == Success(rep.worstFrame)
    requires ReportedInit(rep.frames) == Some(rep.init)
    requires rep.worstTotal == rep.frames[rep.worstFrame].total
    requires rep.listing == Listing(rep.frames[rep.worstFrame].elapsed)
    ensures Reported(src, log, rep)
  {
    WrittenFrames(rep.mapping, log, frames, rep.frames);
    ListingMembers(rep.frames[rep.worstFrame].elapsed);
  }

  /** The written frames are the reductions of the reference frames, none dividing by zero. */
  lemma WrittenFrames(m: Mapping, log: seq<LogLine>, frames: seq<Frame>, sums: seq<Summary>)
    requires SplitFrames(m, log) == Success(frames)
    requires AllWrittenFrom(frames, 0, sums)
    ensures |sums| == FrameCount(log)
    ensures forall k :: 0 <= k < |sums| ==>
      Reduce(RefFrame(m, log, k), k) == Success(sums[k]) && !DividesByZero(sums[k])
  {
    forall k | 0 <= k < |sums|
      ensures Reduce(RefFrame(m, log, k), k) == Success(sums[k]) && !DividesByZero(sums[k])
    {
      assert WriteFrame(frames[k], k) == Success(sums[k]);
      WriteFrameOutcome(frames[k], k);
    }
  }

  /** A repeated index in the source stops the reducer before the output is read. */
  lemma DuplicateStops(src: seq<SourceLine>, log: seq<LogLine>)
    requires Repeated(src)
    ensures ParseProfileLog(src, log).Failure?
    ensures ParseProfileLog(src, log).error.DuplicateIndex?
  {
  }

  /** With a clean source, a sample of an undeclared index stops the reducer. */
  lemma UnknownStops(src: seq<SourceLine>, log: seq<LogLine>)
    requires !Repeated(src)
    requires HasUnknownIndex(BuildMapping(src).value, log)
    ensures ParseProfileLog(src, log).Failure?
    ensures ParseProfileLog(src, log).error.UnknownIndex?
  {
  }

  /** With every index known, output without a finished frame has no worst case. */
  lemma NoFrameStops(src: seq<SourceLine>, log: seq<LogLine>)
    requires !Repeated(src)
    requires !HasUnknownIndex(BuildMapping(src).value, log)
    requires FrameCount(log) == 0
    ensures ParseProfileLog(src, log) == Failure(NoFrames)
  {
    var m := BuildMapping(src).value;
    var frames := SplitFrames(m, log).value;
    assert SummarizeFrom(frames, 0) == Success([]);
  }

  /**
   * With every index known, the first finished frame that cannot be written
   * stops the reducer: frame `k`, when it holds a `start_` tag without its
   * `end_` tag, and every earlier frame can be written.
   */
  lemma MissingEndStops(src: seq<SourceLine>, log: seq<LogLine>, k: nat)
    requires !Repeated(src)
    requires !HasUnknownIndex(BuildMapping(src).value, log)
    requires k < FrameCount(log)
    requires Writable(BuildMapping(src).value, log, k)
    requires !EndsPresent(RefFrame(BuildMapping(src).value, log, k))
    ensures ParseProfileLog(src, log).Failure?
    ensures ParseProfileLog(src, log).error.MissingEnd?
    ensures ParseProfileLog(src, log).error.frame == k
  {
    var e := FirstUnwritable(src, log, k);
    assert WriteFrame(RefFrame(BuildMapping(src).value, log, k), k) == Failure(e);
  }

  /**
   * With every index known, frame `k` with elapsed entries but a total of 0
   * stops the reducer with `ZeroTotal(k)` when every earlier frame can be
   * written.
   */
  lemma ZeroTotalStops(src: seq<SourceLine>, log: seq<LogLine>, k: nat)
    requires !Repeated(src)
    requires !HasUnknownIndex(BuildMapping(src).value, log)
    requires k < FrameCount(log)
    requires Writable(BuildMapping(src).value, log, k)
    requires EndsPresent(RefFrame(BuildMapping(src).value, log, k))
    requires DividesByZero(Reduce(RefFrame(BuildMapping(src).value, log, k), k).value)
    ensures ParseProfileLog(src, log) == Failure(ZeroTotal(k))
  {
    var e := FirstUnwritable(src, log, k);
  }

  /** The per-frame loop stops at frame `k`, the first one that cannot be written. */
  lemma FirstUnwritable(src: seq<SourceLine>, log: seq<LogLine>, k: nat) returns (e: ProfileError)
    requires !Repeated(src)
    requires !HasUnknownIndex(BuildMapping(src).value, log)
    requires k < FrameCount(log)
    requires Writable(BuildMapping(src).value, log, k)
    requires WriteFrame(RefFrame(BuildMapping(src).value, log, k), k).Failure?
    ensures WriteFrame(RefFrame(BuildMapping(src).value, log, k), k) == Failure(e)
    ensures ParseProfileLog(src, log) == Failure(e)
  {
    var m := BuildMapping(src).value;
    var frames := SplitFrames(m, log).value;
    var sr := SummarizeFrom(frames, 0);
    assert WriteFrame(frames[k], k).Failure?;
    var j :| 0 <= j < |frames| && WriteFrame(frames[j], j) == Failure(sr.error) &&
      forall i :: 0 <= i < j ==> WriteFrame(frames[i], i).Success?;
    assert j == k;
    e := sr.error;
  }

  /**
   * With every finished frame written, the reducer stops with `InitUnset`
   * when no frame has an init value.
   */
  lemma InitUnsetStops(src: seq<SourceLine>, log: seq<LogLine>)
    requires !Repeated(src)
    requires !HasUnknownIndex(BuildMapping(src).value, log)
    requires FrameCount(log) > 0
    requires Writable(BuildMapping(src).value, log, FrameCount(log))
    requires !SomeInit(BuildMapping(src).value, log)
    ensures ParseProfileLog(src, log) == Failure(InitUnset)
  {
    var summaries := AllWritten(src, log);
    assert forall k :: 0 <= k < |summaries| ==> summaries[k].init.None? by {
      forall k | 0 <= k < |summaries|
        ensures summaries[k].init.None?
      {
        assert EndsPresent(RefFrame(BuildMapping(src).value, log, k));
      }
    }
  }

  /** When every finished frame can be written, the per-frame loop gives their reductions. */
  lemma AllWritten(src: seq<SourceLine>, log: seq<LogLine>) returns (summaries: seq<Summary>)
    requires !Repeated(src)
    requires !HasUnknownIndex(BuildMapping(src).value, log)
    requires Writable(BuildMapping(src).value, log, FrameCount(log))
    ensures SummarizeFrom(SplitFrames(BuildMapping(src).value, log).value, 0) == Success(summaries)
    ensures |summaries| == FrameCount(log)
    ensures forall k :: 0 <= k < |summaries| ==>
      Reduce(RefFrame(BuildMapping(src).value, log, k), k) == Success(summaries[k])
  {
    var m := BuildMapping(src).value;
    var frames := SplitFrames(m, log).value;
    var sr := SummarizeFrom(frames, 0);
    summaries := sr.value;
  }

  /**
   * The reducer succeeds exactly when the source repeats no index, every
   * sampled index is declared, at least one frame is finished, every
   * finished frame closes each `start_` tag it holds and has a total that
   * is not 0 unless it has no entries, and some finished frame has an init
   * value.
   */
  lemma Succeeds(src: seq<SourceLine>, log: seq<LogLine>)
    ensures ParseProfileLog(src, log).Success? <==>
      && !Repeated(src)
      && !HasUnknownIndex(BuildMapping(src).value, log)
      && FrameCount(log) > 0
      && Writable(BuildMapping(src).value, log, FrameCount(log))
      && SomeInit(BuildMapping(src).value, log)
  {
    if ParseProfileLog(src, log).Success? {
      SucceedsOnlyIf(src, log);
    } else if !Repeated(src) && !HasUnknownIndex(BuildMapping(src).value, log) &&
      FrameCount(log) > 0 && Writable(BuildMapping(src).value, log, FrameCount(log)) {
      InitUnsetStops(src, log);
    }
  }

  /** What a successful run implies about its input. */
  lemma SucceedsOnlyIf(src: seq<SourceLine>, log: seq<LogLine>)
    requires ParseProfileLog(src, log).Success?
    ensures !Repeated(src)
    ensures !HasUnknownIndex(BuildMapping(src).value, log)
    ensures FrameCount(log) > 0
    ensures Writable(BuildMapping(src).value, log, FrameCount(log))
    ensures SomeInit(BuildMapping(src).value, log)
  {
    var rep := ParseProfileLog(src, log).value;
    assert SplitFrames(rep.mapping, log).Success?;
    ReportedInput(src, log, rep.mapping, rep);
  }

  /** The frames of a report are those of the output, all written, one with an init value. */
  lemma ReportedInput(src: seq<SourceLine>, log: seq<LogLine>, m: Mapping, rep: Report)
    requires Reported(src, log, rep)
    requires rep.mapping == m
    ensures FrameCount(log) > 0
    ensures Writable(m, log, FrameCount(log))
    ensures SomeInit(m, log)
  {
    var k :| 0 <= k < |rep.frames| && rep.frames[k].init == Some(rep.init) &&
      forall j :: k < j < |rep.frames| ==> rep.frames[j].init.None?;
    assert Reduce(RefFrame(m, log, k), k) == Success(rep.frames[k]);
  }

  /**
   * The worst-case listing divides each entry by the worst frame's total as
   * well; after every frame has been written, that total is not 0 when
   * anything is listed.
   */
  lemma ListingSharesDefined(src: seq<SourceLine>, log: seq<LogLine>)
    requires ParseProfileLog(src, log).Success?
    ensures |ParseProfileLog(src, log).value.listing| > 0 ==> ParseProfileLog(src, log).value.worstTotal != 0
  {
    var rep := ParseProfileLog(src, log).value;
    if |rep.listing| > 0 {
      assert rep.listing[0] in rep.listing;
    }
  }

  /**
   * Frame `k` of the report is the reduction of the `k`-th reference frame:
   * one entry per `start_` tag, in the order its tag was first sampled, the
   * total over tags that do not end in `init`, and the last `init` value.
   */
  lemma FrameReport(src: seq<SourceLine>, log: seq<LogLine>, k: nat)
    requires ParseProfileLog(src, log).Success?
    requires k < |ParseProfileLog(src, log).value.frames|
    ensures
      var rep := ParseProfileLog(src, log).value;
      var frame := RefFrame(rep.mapping, log, k);
      && rep.frames[k].elapsed == Pairs(frame, 0)
      && rep.frames[k].total == SumNonInit(rep.frames[k].elapsed)
      && rep.frames[k].init == LastInit(rep.frames[k].elapsed)
  {
    var rep := ParseProfileLog(src, log).value;
    FillDistinct(rep.mapping, [], FrameLines(log, k));
  }

  /**
   * Every elapsed entry left out of the frame total (its tag ends in `init`)
   * is also left out of the worst-case listing, whose filter is the looser
   * "contains `init`".
   */
  lemma UncountedNotListed(src: seq<SourceLine>, log: seq<LogLine>, x: (string, int))
    requires ParseProfileLog(src, log).Success?
    requires EndsWith(x.0, "init")
    ensures x !in ParseProfileLog(src, log).value.listing
  {
    EndsWithContains(x.0, "init");
  }

  /** Two declarations of different indices map each index to its tag, in order. */
  lemma MappingOfTwo(a: string, ta: string, b: string, tb: string)
    requires a != b
    ensures BuildMapping([Decl(a, ta), Decl(b, tb)]) == Success([(a, ta), (b, tb)])
  {
    var src := [Decl(a, ta), Decl(b, tb)];
    assert src[..1] == [Decl(a, ta)];
    assert src[..1][..0] == [];
    var m1 := [(a, ta)];
    assert Put([], a, ta) == m1;
    assert BuildMapping(src[..1]) == Success(m1);
    assert Keys(m1) == [a];
    assert Get(m1, b).None?;
    assert Put(m1, b, tb) == [(a, ta), (b, tb)];
    assert src[|src| - 1] == Decl(b, tb);
  }

  /**
   * Two markers around two samples of different tags make exactly one frame
   * holding both samples; the marker numbers play no part.
   */
  lemma OneFrame(m: Mapping, a: string, ta: string, x: nat, b: string, tb: string, y: nat, n0: nat, n1: nat)
    requires Get(m, a) == Some(ta) && Get(m, b) == Some(tb) && ta != tb
    ensures SplitFrames(m, [FrameMarker(n0), Sample(a, x), Sample(b, y), FrameMarker(n1)]) ==
      Success([[(ta, x), (tb, y)]])
  {
    var log := [FrameMarker(n0), Sample(a, x), Sample(b, y), FrameMarker(n1)];
    OneFrameScan(m, a, ta, x, b, tb, y, n0, n1);
    SplitIsScan(m, log);
  }

  /** The scan behind `OneFrame`, one line at a time. */
  lemma OneFrameScan(m: Mapping, a: string, ta: string, x: nat, b: string, tb: string, y: nat, n0: nat, n1: nat)
    requires Get(m, a) == Some(ta) && Get(m, b) == Some(tb) && ta != tb
    ensures ScanFrom(m, [FrameMarker(n0), Sample(a, x), Sample(b, y), FrameMarker(n1)], Scan([], [], 0)) ==
      Success(Scan([[(ta, x), (tb, y)]], [], 2))
  {
    var rest := [Sample(b, y), FrameMarker(n1)];
    OneFrameHead(m, a, ta, x, n0, rest);
    OneFrameTail(m, [(ta, x)], b, tb, y, n1);
    assert [FrameMarker(n0), Sample(a, x)] + rest == [FrameMarker(n0), Sample(a, x), Sample(b, y), FrameMarker(n1)];
    assert [(ta, x)] + [(tb, y)] == [(ta, x), (tb, y)];
  }

  /** The first marker opens the frame, and the first sample starts filling it. */
  lemma OneFrameHead(m: Mapping, a: string, ta: string, x: nat, n0: nat, rest: seq<LogLine>)
    requires Get(m, a) == Some(ta)
    ensures ScanFrom(m, [FrameMarker(n0), Sample(a, x)] + rest, Scan([], [], 0)) ==
      ScanFrom(m, rest, Scan([], [(ta, x)], 1))
  {
    var lines := [FrameMarker(n0), Sample(a, x)] + rest;
    assert lines[0] == FrameMarker(n0) && lines[1..][0] == Sample(a, x) && lines[1..][1..] == rest;
    assert Put([], ta, x) == [(ta, x)];
  }

  /** The second sample joins the open frame, and the closing marker finalizes it. */
  lemma OneFrameTail(m: Mapping, first: Frame, b: string, tb: string, y: nat, n1: nat)
    requires |first| == 1 && Get(m, b) == Some(tb) && first[0].0 != tb
    ensures ScanFrom(m, [Sample(b, y), FrameMarker(n1)], Scan([], first, 1)) ==
      Success(Scan([first + [(tb, y)]], [], 2))
  {
    var lines := [Sample(b, y), FrameMarker(n1)];
    var frame := first + [(tb, y)];
    var done := Scan([frame], [], 2);
    assert Step(m, Scan([], frame, 1), lines[1]) == Success(done) by {
      assert [] + [frame] == [frame];
    }
    assert ScanFrom(m, lines[1..], Scan([], frame, 1)) == Success(done) by {
      assert ScanFrom(m, lines[2..], done) == Success(done);
    }
    assert Step(m, Scan([], first, 1), lines[0]) == Success(Scan([], frame, 1)) by {
      assert Keys(first) == [first[0].0];
      assert Get(first, tb).None?;
    }
  }

  /** A frame with one `start_`/`end_` pair reduces to that operation's cycles. */
  lemma ReduceOnePair(op: string, x: nat, y: nat) returns (sum: Summary)
    ensures Reduce([("start_" + op, x), ("end_" + op, y)], 0) == Success(sum)
    ensures sum.elapsed == [(op, (y as int) - (x as int))]
    ensures sum.total == if EndsWith(op, "init") then 0 else (y as int) - (x as int)
    ensures sum.init == if EndsWith(op, "init") then Some((y as int) - (x as int)) else None
  {
    LoopOnePair(op, x, y);
    sum := OneSummary(op, (y as int) - (x as int));
    ReduceIsLoop([("start_" + op, x), ("end_" + op, y)], 0);
  }

  /** The summary of a frame whose one operation `op` took `c` ticks. */
  function OneSummary(op: string, c: int): Summary
  {
    if EndsWith(op, "init") then Summary([(op, c)], 0, Some(c)) else Summary([(op, c)], c, None)
  }

  /** The reduction loop over a one-pair frame, entry by entry. */
  lemma LoopOnePair(op: string, x: nat, y: nat)
    ensures ReduceFrom([("start_" + op, x), ("end_" + op, y)], 0, 0, Summary([], 0, None)) ==
      Success(OneSummary(op, (y as int) - (x as int)))
  {
    var frame: Frame := [("start_" + op, x), ("end_" + op, y)];
    PairTags(op, x, y);
    LoopStartThenOther(frame, Summary([], 0, None));
    FirstAccumulation(op, Cycles(frame, 0));
  }

  /** A frame of a `start_` tag and then a tag that is not one records that pair only. */
  lemma LoopStartThenOther(frame: Frame, acc: Summary)
    requires |frame| == 2 && IsStart(frame[0].0) && !IsStart(frame[1].0)
    requires Get(frame, EndTag(frame[0].0)).Some?
    ensures ReduceFrom(frame, 0, 0, acc) == Success(Accumulate(acc, frame[0].0, Cycles(frame, 0)))
  {
    var acc1 := Accumulate(acc, frame[0].0, Cycles(frame, 0));
    PairStep(frame, 0, 0, acc);
    SkipStep(frame, 0, 1, acc1);
    LoopEnd(frame, 0, acc1);
  }

  /** The loop past the last entry returns what it accumulated. */
  lemma LoopEnd(frame: Frame, frameNo: nat, acc: Summary)
    ensures ReduceFrom(frame, frameNo, |frame|, acc) == Success(acc)
  {
  }

  /** Accumulating one operation into the empty summary. */
  lemma FirstAccumulation(op: string, c: int)
    ensures IsStart("start_" + op)
    ensures Accumulate(Summary([], 0, None), "start_" + op, c) == OneSummary(op, c)
  {
    assert ("start_" + op)[..6] == "start_";
    assert Operation("start_" + op) == op;
    StartTagEndsWithInit(op);
    assert Put([], op, c) == [(op, c)];
  }

  /** The tags of a one-pair frame: a `start_` tag, its `end_` tag after it, and their cycles. */
  lemma PairTags(op: string, x: nat, y: nat)
    ensures
      var frame: Frame := [("start_" + op, x), ("end_" + op, y)];
      && IsStart(frame[0].0) && !IsStart(frame[1].0)
      && Operation(frame[0].0) == op
      && Get(frame, EndTag(frame[0].0)) == Some(y)
      && Cycles(frame, 0) == (y as int) - (x as int)
      && (EndsWith(frame[0].0, "init") <==> EndsWith(op, "init"))
  {
    var frame: Frame := [("start_" + op, x), ("end_" + op, y)];
    assert frame[0].0[..6] == "start_";
    assert Operation(frame[0].0) == op;
    assert ("end_" + op)[0] != "start_"[0];
    assert !IsStart(frame[1].0);
    assert frame[0].0 != frame[1].0;
    assert Get(frame, "end_" + op) == Some(y);
    StartTagEndsWithInit(op);
  }

  /**
   * The whole reducer on the smallest complete input, one operation measured
   * once inside one finished frame, makes no report. When the operation ends
   * in `init` the frame total is 0, and so it is when the operation took no
   * ticks: the frame's one share divides by zero. Otherwise no frame has an
   * init value.
   */
  lemma OnePairReport(op: string, a: string, b: string, x: nat, y: nat)
    requires a != b
    ensures ParseProfileLog(
      [Decl(a, "start_" + op), Decl(b, "end_" + op)],
      [FrameMarker(0), Sample(a, x), Sample(b, y), FrameMarker(1)]) ==
      Failure(if EndsWith(op, "init") || x == y then ZeroTotal(0) else InitUnset)
  {
    var src := [Decl(a, "start_" + op), Decl(b, "end_" + op)];
    var log := [FrameMarker(0), Sample(a, x), Sample(b, y), FrameMarker(1)];
    var m := [(a, "start_" + op), (b, "end_" + op)];
    var frame: Frame := [("start_" + op, x), ("end_" + op, y)];
    OnePairFrames(op, a, b, x, y);
    var sum := ReduceOnePair(op, x, y);
    OneFrameReport(src, log, m, frame, sum);
  }

  /** The declarations of one pair map both indices; the output makes one frame of both samples. */
  lemma OnePairFrames(op: string, a: string, b: string, x: nat, y: nat)
    requires a != b
    ensures BuildMapping([Decl(a, "start_" + op), Decl(b, "end_" + op)]) ==
      Success([(a, "start_" + op), (b, "end_" + op)])
    ensures SplitFrames([(a, "start_" + op), (b, "end_" + op)],
      [FrameMarker(0), Sample(a, x), Sample(b, y), FrameMarker(1)]) ==
      Success([[("start_" + op, x), ("end_" + op, y)]])
  {
    var m := [(a, "start_" + op), (b, "end_" + op)];
    MappingOfTwo(a, "start_" + op, b, "end_" + op);
    assert Get(m, a) == Some("start_" + op);
    assert Get(m, b) == Some("end_" + op);
    assert ("end_" + op)[0] != ("start_" + op)[0];
    OneFrame(m, a, "start_" + op, x, b, "end_" + op, y, 0, 1);
  }

  /**
   * Output with a single finished frame that reduces: the frame cannot be
   * written when its share divides by zero, it makes no report without an
   * init value, and otherwise it is the worst case.
   */
  lemma OneFrameReport(src: seq<SourceLine>, log: seq<LogLine>, m: Mapping, frame: Frame, sum: Summary)
    requires BuildMapping(src) == Success(m)
    requires SplitFrames(m, log) == Success([frame])
    requires Reduce(frame, 0) == Success(sum)
    ensures ParseProfileLog(src, log) ==
      if DividesByZero(sum) then Failure(ZeroTotal(0))
      else if sum.init.None? then Failure(InitUnset)
      else Success(Report(m, [sum], 0, sum.total, sum.init.value, Listing(sum.elapsed)))
  {
    if DividesByZero(sum) {
      assert SummarizeFrom([frame], 0) == Failure(ZeroTotal(0));
    } else {
      SummarizeOne(frame, sum);
      assert Totals([sum]) == [sum.total];
      assert SelectWorst([sum.total]) == Success(0);
      assert ReportedInit([sum]) == sum.init;
    }
  }

  /** A one-entry elapsed list is listed unless its operation contains `init`. */
  lemma ListingOne(e: (string, int))
    ensures Listing([e]) == if Contains(e.0, "init") then [] else [e]
  {
    assert [e][1..] == [];
  }

  /** A single frame that reduces and can be written is summarized alone. */
  lemma SummarizeOne(frame: Frame, sum: Summary)
    requires Reduce(frame, 0) == Success(sum) && !DividesByZero(sum)
    ensures SummarizeFrom([frame], 0) == Success([sum])
  {
    assert SummarizeFrom([frame], 1) == Success([]);
    assert [frame][0] == frame;
    assert [sum] + [] == [sum];
  }

  /**
   * An operation whose name contains `init` without ending in it (such as
   * `init_x`) counts towards the frame total, leaves the init value unset,
   * and is not listed.
   */
  lemma InitInsideNameCountedNotListed(op: string, x: nat, y: nat)
    requires Contains(op, "init") && !EndsWith(op, "init")
    ensures Reduce([("start_" + op, x), ("end_" + op, y)], 0) ==
      Success(Summary([(op, (y as int) - (x as int))], (y as int) - (x as int), None))
    ensures Listing([(op, (y as int) - (x as int))]) == []
  {
    var sum := ReduceOnePair(op, x, y);
    ListingOne((op, (y as int) - (x as int)));
  }

  /** `init_x` is such an operation. */
  lemma InitXCountedNotListed(x: nat, y: nat)
    ensures Reduce([("start_init_x", x), ("end_init_x", y)], 0) ==
      Success(Summary([("init_x", (y as int) - (x as int))], (y as int) - (x as int), None))
    ensures Listing([("init_x", (y as int) - (x as int))]) == []
  {
    InitXContainsInit();
    assert "start_" + "init_x" == "start_init_x";
    assert "end_" + "init_x" == "end_init_x";
    InitInsideNameCountedNotListed("init_x", x, y);
  }

  /** `init_x` contains `init` and does not end in it. */
  lemma InitXContainsInit()
    ensures Contains("init_x", "init") && !EndsWith("init_x", "init")
  {
    assert "init_x"[..4] == "init";
    assert "init_x"[2..] != "init";
  }
}
