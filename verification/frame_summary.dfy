/**
 * Reducing one frame: every `start_X` tag is paired with `end_X`, giving the
 * elapsed timer ticks of `X`; the elapsed values are summed into the frame
 * total, except those of tags ending in `init`, whose value is kept apart.
 */
module FrameSummary {
  import opened Wrappers
  import opened Dicts
  import opened Text
  import opened ProfileErrors
  import opened FrameSplit

  /** Elapsed ticks per operation `X`, the total without init, and the last init value. */
  datatype Summary = Summary(elapsed: Dict<string, int>, total: int, init: Option<int>)

  /** A `start_` tag of the frame. */
  predicate IsStart(tag: string) {
    StartsWith(tag, "start_")
  }

  /** The operation name of a `start_` tag: the text after the prefix. */
  function Operation(tag: string): string
    requires IsStart(tag)
  {
    tag[6..]
  }

  /** The tag that closes a `start_` tag. */
  function EndTag(tag: string): string
    requires IsStart(tag)
  {
    "end_" + Operation(tag)
  }

  /** The ticks between the `start_` tag at `i` and its `end_` tag. */
  function Cycles(frame: Frame, i: nat): int
    requires i < |frame| && IsStart(frame[i].0) && Get(frame, EndTag(frame[i].0)).Some?
  {
    (Get(frame, EndTag(frame[i].0)).value as int) - (frame[i].1 as int)
  }

  /** Record the elapsed ticks of one `start_` tag. */
  function Accumulate(acc: Summary, tag: string, cycles: int): Summary
    requires IsStart(tag)
  {
    var elapsed := Put(acc.elapsed, Operation(tag), cycles);
    if EndsWith(tag, "init") then Summary(elapsed, acc.total, Some(cycles))
    else Summary(elapsed, acc.total + cycles, acc.init)
  }

  /** The loop over the entries `frame[i..]`, in the frame's order. */
  function ReduceFrom(frame: Frame, frameNo: nat, i: nat, acc: Summary): Result<Summary, ProfileError>
    requires i <= |frame|
    decreases |frame| - i
  {
    if i == |frame| then Success(acc)
    else if !IsStart(frame[i].0) then ReduceFrom(frame, frameNo, i + 1, acc)
    else
      match Get(frame, EndTag(frame[i].0))
      case None => Failure(MissingEnd(frameNo, EndTag(frame[i].0)))
      case Some(_) =>
        ReduceFrom(frame, frameNo, i + 1, Accumulate(acc, frame[i].0, Cycles(frame, i)))
  }

  /** Every `start_X` tag of the frame has its `end_X` tag. */
  predicate EndsPresent(frame: Frame) {
    forall j :: 0 <= j < |frame| && IsStart(frame[j].0) ==> Get(frame, EndTag(frame[j].0)).Some?
  }

  /**
   * The elapsed entries of `frame[i..]`, one per `start_` tag, in order: the
   * reference the dict-building loop is compared with.
   */
  function Pairs(frame: Frame, i: nat): seq<(string, int)>
    requires i <= |frame| && !MissingFrom(frame, i)
    decreases |frame| - i
  {
    if i == |frame| then []
    else (if IsStart(frame[i].0) then [PairAt(frame, i)] else []) + Pairs(frame, i + 1)
  }

  /** The elapsed entry of the `start_` tag at `j`: its operation and its ticks. */
  function PairAt(frame: Frame, j: nat): (string, int)
    requires j < |frame| && IsStart(frame[j].0) && Get(frame, EndTag(frame[j].0)).Some?
  {
    (Operation(frame[j].0), Cycles(frame, j))
  }

  /** Sum of the elapsed values whose operation does not end in `init`. */
  function SumNonInit(pairs: seq<(string, int)>): int
  {
    if |pairs| == 0 then 0
    else (if EndsWith(pairs[0].0, "init") then 0 else pairs[0].1) + SumNonInit(pairs[1..])
  }

  /** The elapsed value of the last operation ending in `init`, if any. */
  function LastInit(pairs: seq<(string, int)>): Option<int>
  {
    if |pairs| == 0 then None
    else
      var later := LastInit(pairs[1..]);
      if later.Some? then later
      else if EndsWith(pairs[0].0, "init") then Some(pairs[0].1)
      else None
  }

  /** Reduce frame number `frameNo`; a `start_` tag without its `end_` tag is fatal. */
  function Reduce(frame: Frame, frameNo: nat): (r: Result<Summary, ProfileError>)
    ensures r.Failure? <==> !EndsPresent(frame)
    ensures r.Failure? ==> ReportsMissing(frame, frameNo, 0, r.error)
    ensures r.Success? && DistinctKeys(frame) ==>
      && r.value.elapsed == Pairs(frame, 0)
      && r.value.total == SumNonInit(r.value.elapsed)
      && r.value.init == LastInit(r.value.elapsed)
  {
    var acc := Summary([], 0, None);
    ReduceErrors(frame, frameNo, 0, acc);
    var r := ReduceFrom(frame, frameNo, 0, acc);
    if r.Success? && DistinctKeys(frame) then
      ReduceValues(frame, frameNo, 0, acc);
      assert [] + Pairs(frame, 0) == Pairs(frame, 0);
      r
    else r
  }

  /** `Reduce` is the loop run from the first entry with nothing accumulated. */
  lemma ReduceIsLoop(frame: Frame, frameNo: nat)
    ensures Reduce(frame, frameNo) == ReduceFrom(frame, frameNo, 0, Summary([], 0, None))
  {
  }

  /** Some `start_` tag in `frame[i..]` lacks its `end_` tag. */
  predicate MissingFrom(frame: Frame, i: nat) {
    exists j :: i <= j < |frame| && IsStart(frame[j].0) && Get(frame, EndTag(frame[j].0)).None?
  }

  /** The error names the `end_` tag of some `start_` tag in `frame[i..]` that lacks it. */
  predicate ReportsMissing(frame: Frame, frameNo: nat, i: nat, e: ProfileError) {
    && e.MissingEnd?
    && e.frame == frameNo
    && exists j :: i <= j < |frame| && IsStart(frame[j].0) &&
         e.endTag == EndTag(frame[j].0) && Get(frame, e.endTag).None?
  }

  lemma {:induction false} ReduceErrors(frame: Frame, frameNo: nat, i: nat, acc: Summary)
    requires i <= |frame|
    ensures ReduceFrom(frame, frameNo, i, acc).Failure? <==> MissingFrom(frame, i)
    ensures ReduceFrom(frame, frameNo, i, acc).Failure? ==>
      ReportsMissing(frame, frameNo, i, ReduceFrom(frame, frameNo, i, acc).error)
    decreases |frame| - i
  {
    if i < |frame| {
      ReduceErrorsStep(frame, frameNo, i, acc);
    }
  }

  lemma {:induction false} ReduceErrorsStep(frame: Frame, frameNo: nat, i: nat, acc: Summary)
    requires i < |frame|
    ensures ReduceFrom(frame, frameNo, i, acc).Failure? <==> MissingFrom(frame, i)
    ensures ReduceFrom(frame, frameNo, i, acc).Failure? ==>
      ReportsMissing(frame, frameNo, i, ReduceFrom(frame, frameNo, i, acc).error)
    decreases |frame| - i, 0
  {
    var tag := frame[i].0;
    if !IsStart(tag) {
      ReduceErrors(frame, frameNo, i + 1, acc);
      SkipStep(frame, frameNo, i, acc);
    } else if Get(frame, EndTag(tag)).Some? {
      ReduceErrors(frame, frameNo, i + 1, Accumulate(acc, tag, Cycles(frame, i)));
      PairStep(frame, frameNo, i, acc);
    } else {
      MissingStep(frame, frameNo, i, acc);
    }
  }

  /** A `start_` tag whose `end_` tag is absent is the failure. */
  lemma MissingStep(frame: Frame, frameNo: nat, i: nat, acc: Summary)
    requires i < |frame| && IsStart(frame[i].0) && Get(frame, EndTag(frame[i].0)).None?
    ensures ReduceFrom(frame, frameNo, i, acc) == Failure(MissingEnd(frameNo, EndTag(frame[i].0)))
    ensures MissingFrom(frame, i)
    ensures ReportsMissing(frame, frameNo, i, MissingEnd(frameNo, EndTag(frame[i].0)))
  {
  }

  /** A tag without the `start_` prefix adds nothing and cannot fail. */
  lemma SkipStep(frame: Frame, frameNo: nat, i: nat, acc: Summary)
    requires i < |frame| && !IsStart(frame[i].0)
    ensures ReduceFrom(frame, frameNo, i, acc) == ReduceFrom(frame, frameNo, i + 1, acc)
    ensures MissingFrom(frame, i) <==> MissingFrom(frame, i + 1)
    ensures forall e :: ReportsMissing(frame, frameNo, i + 1, e) ==> ReportsMissing(frame, frameNo, i, e)
  {
    assert MissingFrom(frame, i) ==> MissingFrom(frame, i + 1);
  }

  /** A `start_` tag whose `end_` tag is present records its pair and goes on. */
  lemma PairStep(frame: Frame, frameNo: nat, i: nat, acc: Summary)
    requires i < |frame| && IsStart(frame[i].0) && Get(frame, EndTag(frame[i].0)).Some?
    ensures ReduceFrom(frame, frameNo, i, acc) == ReduceFrom(frame, frameNo, i + 1, Accumulate(acc, frame[i].0, Cycles(frame, i)))
    ensures MissingFrom(frame, i) <==> MissingFrom(frame, i + 1)
    ensures forall e :: ReportsMissing(frame, frameNo, i + 1, e) ==> ReportsMissing(frame, frameNo, i, e)
  {
    assert MissingFrom(frame, i) ==> MissingFrom(frame, i + 1);
  }

  /** A `start_` tag is the prefix followed by its operation name. */
  lemma StartTagSplit(tag: string)
    requires IsStart(tag)
    ensures tag == "start_" + Operation(tag)
  {
    assert tag == tag[..6] + tag[6..];
  }

  /** The requirement of `ReduceValues`: no operation still to come is recorded yet. */
  predicate Fresh(frame: Frame, i: nat, acc: Summary) {
    forall j :: i <= j < |frame| && IsStart(frame[j].0) ==> Operation(frame[j].0) !in Keys(acc.elapsed)
  }

  /** The loop's result is the accumulator extended by the pairs still to come. */
  predicate Extends(frame: Frame, i: nat, acc: Summary, r: Summary)
    requires i <= |frame| && !MissingFrom(frame, i)
  {
    && r.elapsed == acc.elapsed + Pairs(frame, i)
    && r.total == acc.total + SumNonInit(Pairs(frame, i))
    && r.init == if LastInit(Pairs(frame, i)).Some? then LastInit(Pairs(frame, i)) else acc.init
  }

  lemma {:induction false} ReduceValues(frame: Frame, frameNo: nat, i: nat, acc: Summary)
    requires i <= |frame|
    requires DistinctKeys(frame)
    requires Fresh(frame, i, acc)
    requires ReduceFrom(frame, frameNo, i, acc).Success? && !MissingFrom(frame, i)
    ensures Extends(frame, i, acc, ReduceFrom(frame, frameNo, i, acc).value)
    decreases |frame| - i, 1
  {
    if i == |frame| {
      assert acc.elapsed + [] == acc.elapsed;
    } else if !IsStart(frame[i].0) {
      SkipStep(frame, frameNo, i, acc);
      ReduceValues(frame, frameNo, i + 1, acc);
      assert Pairs(frame, i) == [] + Pairs(frame, i + 1) == Pairs(frame, i + 1);
    } else {
      ReduceValuesPair(frame, frameNo, i, acc);
    }
  }

  lemma {:induction false} ReduceValuesPair(frame: Frame, frameNo: nat, i: nat, acc: Summary)
    requires i < |frame| && IsStart(frame[i].0)
    requires DistinctKeys(frame)
    requires Fresh(frame, i, acc)
    requires ReduceFrom(frame, frameNo, i, acc).Success? && !MissingFrom(frame, i)
    ensures Extends(frame, i, acc, ReduceFrom(frame, frameNo, i, acc).value)
    decreases |frame| - i, 0
  {
    MissingStepFails(frame, frameNo, i, acc);
    PairStep(frame, frameNo, i, acc);
    var acc' := Accumulate(acc, frame[i].0, Cycles(frame, i));
    AccumulateFresh(frame, i, acc);
    ReduceValues(frame, frameNo, i + 1, acc');
    ExtendsCons(frame, i, acc, acc', ReduceFrom(frame, frameNo, i + 1, acc').value);
  }

  /** Recording the pair at `i` and then the rest extends by all pairs from `i`. */
  lemma ExtendsCons(frame: Frame, i: nat, acc: Summary, acc': Summary, r: Summary)
    requires i < |frame| && IsStart(frame[i].0) && !MissingFrom(frame, i)
    requires acc'.elapsed == acc.elapsed + [(Operation(frame[i].0), Cycles(frame, i))]
    requires acc'.total == acc.total + (if EndsWith(Operation(frame[i].0), "init") then 0 else Cycles(frame, i))
    requires acc'.init == if EndsWith(Operation(frame[i].0), "init") then Some(Cycles(frame, i)) else acc.init
    requires Extends(frame, i + 1, acc', r)
    ensures Extends(frame, i, acc, r)
  {
    PairsCons(frame, i);
    ExtendsJoin(acc, acc', r, (Operation(frame[i].0), Cycles(frame, i)), Pairs(frame, i + 1), Pairs(frame, i));
  }

  /**
   * The arithmetic of `ExtendsCons` over an arbitrary head pair `x` and
   * remaining pairs `rest`.
   */
  lemma ExtendsJoin(acc: Summary, acc': Summary, r: Summary, x: (string, int), rest: seq<(string, int)>, all: seq<(string, int)>)
    requires all == [x] + rest
    requires SumNonInit(all) == (if EndsWith(x.0, "init") then 0 else x.1) + SumNonInit(rest)
    requires LastInit(all) ==
      if LastInit(rest).Some? then LastInit(rest) else if EndsWith(x.0, "init") then Some(x.1) else None
    requires acc'.elapsed == acc.elapsed + [x]
    requires acc'.total == acc.total + (if EndsWith(x.0, "init") then 0 else x.1)
    requires acc'.init == if EndsWith(x.0, "init") then Some(x.1) else acc.init
    requires r.elapsed == acc'.elapsed + rest
    requires r.total == acc'.total + SumNonInit(rest)
    requires r.init == if LastInit(rest).Some? then LastInit(rest) else acc'.init
    ensures r.elapsed == acc.elapsed + all
    ensures r.total == acc.total + SumNonInit(all)
    ensures r.init == if LastInit(all).Some? then LastInit(all) else acc.init
  {
    assert acc.elapsed + [x] + rest == acc.elapsed + ([x] + rest);
  }

  /** A `start_` tag without its `end_` tag cannot be part of a successful reduction. */
  lemma MissingStepFails(frame: Frame, frameNo: nat, i: nat, acc: Summary)
    requires i < |frame| && IsStart(frame[i].0)
    requires ReduceFrom(frame, frameNo, i, acc).Success?
    ensures Get(frame, EndTag(frame[i].0)).Some?
  {
  }

  /** Recording a pair appends a fresh operation, and keeps the others fresh. */
  lemma AccumulateFresh(frame: Frame, i: nat, acc: Summary)
    requires i < |frame| && IsStart(frame[i].0) && Get(frame, EndTag(frame[i].0)).Some?
    requires DistinctKeys(frame)
    requires Fresh(frame, i, acc)
    ensures Accumulate(acc, frame[i].0, Cycles(frame, i)).elapsed ==
      acc.elapsed + [(Operation(frame[i].0), Cycles(frame, i))]
    ensures Accumulate(acc, frame[i].0, Cycles(frame, i)).total ==
      acc.total + (if EndsWith(Operation(frame[i].0), "init") then 0 else Cycles(frame, i))
    ensures Accumulate(acc, frame[i].0, Cycles(frame, i)).init ==
      if EndsWith(Operation(frame[i].0), "init") then Some(Cycles(frame, i)) else acc.init
    ensures Fresh(frame, i + 1, Accumulate(acc, frame[i].0, Cycles(frame, i)))
  {
    var tag := frame[i].0;
    var op := Operation(tag);
    var acc' := Accumulate(acc, tag, Cycles(frame, i));
    StartTagSplit(tag);
    StartTagEndsWithInit(op);
    KeysSnoc(acc.elapsed, op, Cycles(frame, i));
    assert Keys(acc'.elapsed) == Keys(acc.elapsed) + [op];
    forall j | i + 1 <= j < |frame| && IsStart(frame[j].0)
      ensures Operation(frame[j].0) !in Keys(acc'.elapsed)
    {
      StartTagSplit(frame[j].0);
      assert frame[j].0 != frame[i].0;
      assert Operation(frame[j].0) != op;
    }
  }

  /** The pair of a `start_` tag heads the remaining pairs. */
  lemma PairsCons(frame: Frame, i: nat)
    requires i < |frame| && IsStart(frame[i].0) && !MissingFrom(frame, i)
    ensures Pairs(frame, i) == [(Operation(frame[i].0), Cycles(frame, i))] + Pairs(frame, i + 1)
    ensures SumNonInit(Pairs(frame, i)) ==
      (if EndsWith(Operation(frame[i].0), "init") then 0 else Cycles(frame, i)) + SumNonInit(Pairs(frame, i + 1))
    ensures LastInit(Pairs(frame, i)) ==
      if LastInit(Pairs(frame, i + 1)).Some? then LastInit(Pairs(frame, i + 1))
      else if EndsWith(Operation(frame[i].0), "init") then Some(Cycles(frame, i))
      else None
  {
    var p := Pairs(frame, i);
    assert p[1..] == Pairs(frame, i + 1);
  }

  /** Every `start_` tag from `i` on contributes its pair. */
  lemma {:induction false} PairsHave(frame: Frame, i: nat, j: nat)
    requires i <= j < |frame| && IsStart(frame[j].0) && !MissingFrom(frame, i)
    ensures PairAt(frame, j) in Pairs(frame, i)
    decreases j - i
  {
    if i < j {
      PairsHave(frame, i + 1, j);
    }
  }

  /** Every pair comes from a `start_` tag from `i` on. */
  lemma {:induction false} PairsSource(frame: Frame, i: nat, x: (string, int)) returns (j: nat)
    requires i <= |frame| && !MissingFrom(frame, i)
    requires x in Pairs(frame, i)
    ensures i <= j < |frame| && IsStart(frame[j].0) && PairAt(frame, j) == x
    decreases |frame| - i
  {
    if IsStart(frame[i].0) && x == PairAt(frame, i) {
      j := i;
    } else {
      j := PairsSource(frame, i + 1, x);
    }
  }

  /**
   * A frame with `start_X` at `s` and `end_X` at `e` has `(X, e - s)` in its
   * elapsed table.
   */
  lemma ElapsedOfPair(frame: Frame, frameNo: nat, j: nat, op: string, e: nat)
    requires DistinctKeys(frame)
    requires Reduce(frame, frameNo).Success?
    requires j < |frame| && frame[j].0 == "start_" + op && Get(frame, "end_" + op) == Some(e)
    ensures (op, e - frame[j].1) in Reduce(frame, frameNo).value.elapsed
  {
    PairAtOf(frame, j, op, e);
    PairsHave(frame, 0, j);
  }

  /** The pair recorded for `start_X` at `j` when `end_X` holds `e`. */
  lemma PairAtOf(frame: Frame, j: nat, op: string, e: nat)
    requires j < |frame| && frame[j].0 == "start_" + op && Get(frame, "end_" + op) == Some(e)
    ensures IsStart(frame[j].0) && EndTag(frame[j].0) == "end_" + op && PairAt(frame, j) == (op, e - frame[j].1)
  {
    StartTagOf(frame[j].0, op);
  }

  /** The tag `start_X` is a `start_` tag of operation `X`, closed by `end_X`. */
  lemma StartTagOf(tag: string, op: string)
    requires tag == "start_" + op
    ensures IsStart(tag) && Operation(tag) == op && EndTag(tag) == "end_" + op
  {
    assert tag[..6] == "start_";
  }

  /**
   * Conversely, every elapsed entry `(X, c)` comes from a `start_X` at `s`
   * and an `end_X` at `e` with `c == e - s`.
   */
  lemma PairOfElapsed(frame: Frame, frameNo: nat, x: (string, int)) returns (j: nat, e: nat)
    requires DistinctKeys(frame)
    requires Reduce(frame, frameNo).Success?
    requires x in Reduce(frame, frameNo).value.elapsed
    ensures j < |frame| && frame[j].0 == "start_" + x.0
    ensures Get(frame, "end_" + x.0) == Some(e) && x.1 == e - frame[j].1
  {
    assert EndsPresent(frame);
    j := PairsSource(frame, 0, x);
    StartTagSplit(frame[j].0);
    e := Get(frame, EndTag(frame[j].0)).value;
  }

  /** With every `end_X` at or after its `start_X`, no elapsed value and no total is negative. */
  lemma NonNegativeWhenOrdered(frame: Frame, frameNo: nat)
    requires DistinctKeys(frame)
    requires Reduce(frame, frameNo).Success?
    requires forall j :: 0 <= j < |frame| && IsStart(frame[j].0) ==>
      frame[j].1 <= Get(frame, EndTag(frame[j].0)).value
    ensures forall x :: x in Reduce(frame, frameNo).value.elapsed ==> x.1 >= 0
    ensures Reduce(frame, frameNo).value.total >= 0
  {
    var elapsed := Reduce(frame, frameNo).value.elapsed;
    forall x | x in elapsed
      ensures x.1 >= 0
    {
      var j := PairsSource(frame, 0, x);
    }
    SumNonInitNonNegative(elapsed);
  }

  lemma {:induction false} SumNonInitNonNegative(pairs: seq<(string, int)>)
    requires forall x :: x in pairs ==> x.1 >= 0
    ensures SumNonInit(pairs) >= 0
  {
    if |pairs| > 0 {
      assert pairs[0] in pairs;
      assert forall x :: x in pairs[1..] ==> x in pairs;
      SumNonInitNonNegative(pairs[1..]);
    }
  }
}
