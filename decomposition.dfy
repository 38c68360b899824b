/**
 * The two-pass leave decomposition of the apply handler: every requested
 * leave goes through the holiday splitter, then every resulting slice goes
 * through the weekend splitter. The splitters themselves are not modelled;
 * they are given as functions from one leave to its slices or an error.
 */
module Decomposition {
  import opened Wrappers
  import opened LeaveTypes

  /** A splitter: one leave in, its slices (in chronological order) or an error out. */
  type Splitter = LeaveData -> Result<seq<LeaveData>>

  /**
   * One pass of a splitter over a sequence of leaves, as the append loop runs
   * it: the slices of each leave are appended in turn, and the pass stops at
   * the first leave the splitter rejects.
   */
  function SplitAll(split: Splitter, ls: seq<LeaveData>): (r: Result<seq<LeaveData>>)
    ensures r.Success? <==> forall i :: 0 <= i < |ls| ==> split(ls[i]).Success?
    ensures r.Failure? ==> exists k :: FirstRejected(split, ls, k) && r.error == split(ls[k]).error
    decreases |ls|
  {
    if ls == [] then Success([])
    else
      var init, last := ls[..|ls| - 1], ls[|ls| - 1];
      assert forall i :: 0 <= i < |init| ==> init[i] == ls[i];
      match SplitAll(split, init)
      case Failure(e) => Failure(e)
      case Success(prefix) =>
        match split(last)
        case Failure(e) => Failure(e)
        case Success(slices) => Success(prefix + slices)
  }

  /** `k` is the first position of `ls` whose leave the splitter rejects. */
  predicate FirstRejected(split: Splitter, ls: seq<LeaveData>, k: int)
  {
    && 0 <= k < |ls|
    && split(ls[k]).Failure?
    && forall j :: 0 <= j < k ==> split(ls[j]).Success?
  }

  /** A pass over a concatenation is the concatenation of the passes, and fails exactly when one of them does. */
  lemma {:induction false} SplitAllAppend(split: Splitter, a: seq<LeaveData>, b: seq<LeaveData>)
    ensures SplitAll(split, a + b).Success? <==> SplitAll(split, a).Success? && SplitAll(split, b).Success?
    ensures SplitAll(split, a + b).Success? ==>
              SplitAll(split, a + b).value == SplitAll(split, a).value + SplitAll(split, b).value
    decreases |b|
  {
    if b == [] {
      assert a + b == a;
    } else {
      var binit, last := b[..|b| - 1], b[|b| - 1];
      assert (a + b)[..|a + b| - 1] == a + binit;
      assert (a + b)[|a + b| - 1] == last;
      SplitAllAppend(split, a, binit);
      if SplitAll(split, a + b).Success? {
        assert SplitAll(split, a + b).value
            == SplitAll(split, a + binit).value + split(last).value;
        assert SplitAll(split, b).value == SplitAll(split, binit).value + split(last).value;
      }
    }
  }

  /** A splitter that leaves every leave whole (nothing to exclude) makes the pass the identity. */
  lemma {:induction false} SplitAllIdentity(split: Splitter, ls: seq<LeaveData>)
    requires forall i :: 0 <= i < |ls| ==> split(ls[i]) == Success([ls[i]])
    ensures SplitAll(split, ls) == Success(ls)
    decreases |ls|
  {
    if ls != [] {
      var init := ls[..|ls| - 1];
      assert forall i :: 0 <= i < |init| ==> init[i] == ls[i];
      SplitAllIdentity(split, init);
      assert init + [ls[|ls| - 1]] == ls;
    }
  }

  /** How a two-pass decomposition ends: the records to persist, or which pass failed. */
  datatype DecomposeOutcome =
    | Decomposed(records: seq<LeaveData>)
    | HolidayFailed(error: string)
    | WeekendFailed(error: string)

  /**
   * The whole holiday pass first, then the weekend pass over its output.
   * A rejection in the holiday pass wins over any weekend rejection, because
   * the weekend pass never starts.
   */
  function Decompose(holiday: Splitter, weekend: Splitter, ls: seq<LeaveData>): (r: DecomposeOutcome)
    ensures r.HolidayFailed? <==> exists i :: 0 <= i < |ls| && holiday(ls[i]).Failure?
    ensures r.HolidayFailed? ==> exists k :: FirstRejected(holiday, ls, k) && r.error == holiday(ls[k]).error
    ensures !r.HolidayFailed? ==>
              (r.Decomposed? <==>
                 forall j :: 0 <= j < |SplitAll(holiday, ls).value| ==>
                   weekend(SplitAll(holiday, ls).value[j]).Success?)
  {
    match SplitAll(holiday, ls)
    case Failure(e) => HolidayFailed(e)
    case Success(split) =>
      match SplitAll(weekend, split)
      case Failure(e) => WeekendFailed(e)
      case Success(records) => Decomposed(records)
  }

  /** The decomposition of one leave on its own: its holiday slices, each weekend-split, concatenated. */
  function PerLeave(holiday: Splitter, weekend: Splitter, l: LeaveData): Result<seq<LeaveData>>
  {
    match holiday(l)
    case Failure(e) => Failure(e)
    case Success(slices) => SplitAll(weekend, slices)
  }

  /** `PerLeave` as a splitter in its own right. */
  function PerLeaveSplitter(holiday: Splitter, weekend: Splitter): Splitter
  {
    l => PerLeave(holiday, weekend, l)
  }

  /**
   * Running the two passes over the whole request succeeds exactly when
   * decomposing each requested leave on its own succeeds, and then yields
   * the per-leave decompositions concatenated in request order: the
   * chronological order of the request is kept.
   */
  lemma {:induction false} TwoPassIsPerLeave(holiday: Splitter, weekend: Splitter, ls: seq<LeaveData>)
    ensures Decompose(holiday, weekend, ls).Decomposed?
        <==> SplitAll(PerLeaveSplitter(holiday, weekend), ls).Success?
    ensures Decompose(holiday, weekend, ls).Decomposed? ==>
              Decompose(holiday, weekend, ls).records
                == SplitAll(PerLeaveSplitter(holiday, weekend), ls).value
    decreases |ls|
  {
    var per := PerLeaveSplitter(holiday, weekend);
    if ls == [] {
    } else if SplitAll(holiday, ls).Failure? {
      var k :| FirstRejected(holiday, ls, k);
      assert per(ls[k]).Failure?;
    } else {
      var init, last := ls[..|ls| - 1], ls[|ls| - 1];
      assert forall i :: 0 <= i < |init| ==> init[i] == ls[i];
      TwoPassIsPerLeave(holiday, weekend, init);
      var hInit, hLast := SplitAll(holiday, init).value, holiday(last).value;
      assert SplitAll(holiday, ls).value == hInit + hLast;
      SplitAllAppend(weekend, hInit, hLast);
      assert per(last) == SplitAll(weekend, hLast);
    }
  }

  /** Two requests decomposed one after the other give the same records as the two sent together. */
  lemma DecomposeAppend(holiday: Splitter, weekend: Splitter, a: seq<LeaveData>, b: seq<LeaveData>)
    requires Decompose(holiday, weekend, a).Decomposed?
    requires Decompose(holiday, weekend, b).Decomposed?
    ensures Decompose(holiday, weekend, a + b)
         == Decomposed(Decompose(holiday, weekend, a).records + Decompose(holiday, weekend, b).records)
  {
    TwoPassIsPerLeave(holiday, weekend, a);
    TwoPassIsPerLeave(holiday, weekend, b);
    TwoPassIsPerLeave(holiday, weekend, a + b);
    SplitAllAppend(PerLeaveSplitter(holiday, weekend), a, b);
  }

  /**
   * A leave that both splitters leave whole (a single business day, or any
   * leave already free of holidays and weekends) decomposes into itself.
   */
  lemma DecomposeFixedPoint(holiday: Splitter, weekend: Splitter, ls: seq<LeaveData>)
    requires forall i :: 0 <= i < |ls| ==> holiday(ls[i]) == Success([ls[i]])
    requires forall i :: 0 <= i < |ls| ==> weekend(ls[i]) == Success([ls[i]])
    ensures Decompose(holiday, weekend, ls) == Decomposed(ls)
  {
    SplitAllIdentity(holiday, ls);
    SplitAllIdentity(weekend, ls);
  }
}
