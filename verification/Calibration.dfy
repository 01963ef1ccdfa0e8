/** The store of operator feedback: calibration error, Brier score and learned weights. */
module Calibration {
  import opened RealArith

  datatype FeedbackRecord = FeedbackRecord(predictionID: string, predictedRootCause: string,
                                           confirmedRootCause: string, predictedConfidence: real,
                                           components: seq<real>)

  function Outcome(rec: FeedbackRecord): real {
    if rec.predictedRootCause == rec.confirmedRootCause then 1.0 else 0.0
  }

  /** Conversion to int truncates toward zero. */
  function Trunc(x: real): int {
    if x >= 0.0 then x.Floor else -(-x).Floor
  }

  function BinOf(confidence: real, numBins: int): int {
    var b := Trunc(Times(confidence, numBins as real));
    if b >= numBins then numBins - 1 else b
  }

  /** The index used is within the bins exactly when the scaled confidence is above minus one. */
  lemma BinInRangeIff(confidence: real, numBins: int)
    requires numBins >= 1
    ensures 0 <= BinOf(confidence, numBins) < numBins <==> Times(confidence, numBins as real) > -1.0
  {
  }

  /** For a confidence between zero and one: bin b of n holds what lies in [b/n, (b+1)/n), the last
      bin its upper end as well. */
  lemma BinIff(confidence: real, numBins: int, b: int)
    requires numBins >= 1 && 0.0 <= confidence <= 1.0 && 0 <= b < numBins
    ensures BinOf(confidence, numBins) == b <==>
              b as real <= Times(confidence, numBins as real) &&
              (Times(confidence, numBins as real) < (b + 1) as real || (b == numBins - 1 && confidence == 1.0))
  {
    var n := numBins as real;
    MulMonotone(confidence, 1.0, n);
    MulMonotone(0.0, confidence, n);
    TimesUnits(n);
    if Times(confidence, n) >= n {
      assert Times(n, confidence) == Times(confidence, n);
      CancelFactor(n, 1.0, confidence);
    }
  }

  /** More confidence never lands in a lower bin. */
  lemma BinMonotone(low: real, high: real, numBins: int)
    requires numBins >= 1 && low <= high
    ensures BinOf(low, numBins) <= BinOf(high, numBins)
  {
    MulMonotone(low, high, numBins as real);
  }

  datatype Bin = Bin(totalConf: real, hits: int, count: int)

  /** The bin after one more record. */
  ghost function Counted(bin: Bin, rec: FeedbackRecord): Bin {
    var hit := if rec.predictedRootCause == rec.confirmedRootCause then 1 else 0;
    Bin(bin.totalConf + rec.predictedConfidence, bin.hits + hit, bin.count + 1)
  }

  type Records = map<string, FeedbackRecord>

  ghost predicate Binnable(records: Records, numBins: int) {
    records != map[] ==>
      numBins >= 1 && forall k :: k in records ==> Times(records[k].predictedConfidence, numBins as real) > -1.0
  }

  // ---------------------------------------------------------------------
  // Sums over a set of records, in no particular order

  datatype Measure = ConfIn(bin: int) | HitsIn(bin: int) | CountIn(bin: int)
                   | Confidence | Hit | One | SquaredError | AbsError

  ghost function Error(rec: FeedbackRecord): real {
    rec.predictedConfidence - Outcome(rec)
  }

  /** What one record contributes. */
  ghost function Value(records: Records, numBins: int, m: Measure, k: string): real {
    if k !in records then 0.0 else
      var rec := records[k];
      match m
      case ConfIn(b) => if BinOf(rec.predictedConfidence, numBins) == b then rec.predictedConfidence else 0.0
      case HitsIn(b) => if BinOf(rec.predictedConfidence, numBins) == b then Outcome(rec) else 0.0
      case CountIn(b) => if BinOf(rec.predictedConfidence, numBins) == b then 1.0 else 0.0
      case Confidence => rec.predictedConfidence
      case Hit => Outcome(rec)
      case One => 1.0
      case SquaredError => Sq(Error(rec))
      case AbsError => Abs(Error(rec))
  }

  ghost function Sum(records: Records, numBins: int, m: Measure, s: set<string>): real {
    if s == {} then 0.0 else
      var k :| k in s;
      Value(records, numBins, m, k) + Sum(records, numBins, m, s - {k})
  }

  lemma {:induction false} SumOut(records: Records, numBins: int, m: Measure, s: set<string>, k: string)
    requires k in s
    ensures Sum(records, numBins, m, s) == Value(records, numBins, m, k) + Sum(records, numBins, m, s - {k})
    decreases |s|
  {
    var x :| x in s && Sum(records, numBins, m, s) == Value(records, numBins, m, x) + Sum(records, numBins, m, s - {x});
    if x != k {
      SumOut(records, numBins, m, s - {x}, k);
      SumOut(records, numBins, m, s - {k}, x);
      assert s - {x} - {k} == s - {k} - {x};
    }
  }

  lemma SumIn(records: Records, numBins: int, m: Measure, s: set<string>, k: string)
    requires k !in s
    ensures Sum(records, numBins, m, s + {k}) == Value(records, numBins, m, k) + Sum(records, numBins, m, s)
  {
    SumOut(records, numBins, m, s + {k}, k);
    assert s + {k} - {k} == s;
  }

  /** Confidence claimed beyond the hits of a bin. */
  ghost function Gap(records: Records, numBins: int, s: set<string>, b: int): real {
    Sum(records, numBins, ConfIn(b), s) - Sum(records, numBins, HitsIn(b), s)
  }

  ghost function TotalGap(records: Records, numBins: int, s: set<string>, n: nat): real {
    if n == 0 then 0.0 else TotalGap(records, numBins, s, n - 1) + Abs(Gap(records, numBins, s, n - 1))
  }

  /** e is the expected calibration error: the gaps of all bins over the number of records. */
  ghost predicate IsECE(records: Records, numBins: int, e: real) {
    if records == map[] then e == 0.0
    else numBins >= 1 && Times(e, |records| as real) == TotalGap(records, numBins, records.Keys, numBins)
  }

  ghost predicate IsBrier(records: Records, b: real) {
    if records == map[] then b == 0.0
    else Times(b, |records| as real) == Sum(records, 1, SquaredError, records.Keys)
  }

  // ---------------------------------------------------------------------
  // The class

  class CalibrationStore {
    var records: Records
    var learnedWeights: array<real>

    ghost predicate Valid()
      reads this
    {
      learnedWeights.Length == 4
    }

    constructor ()
      ensures Valid() && fresh(learnedWeights) && records == map[] && learnedWeights[..] == Uniform()
    {
      records := map[];
      learnedWeights := new real[4](_ => 0.25);
    }

    method RecordFeedback(record: FeedbackRecord)
      requires Valid()
      modifies this`records, learnedWeights
      ensures records == old(records)[record.predictionID := record]
      ensures Updated(old(learnedWeights[..]), record, learnedWeights[..])
    {
      records := records[record.predictionID := record];
      if |record.components| == 4 {
        var outcome := 0.0;
        if record.predictedRootCause == record.confirmedRootCause {
          outcome := 1.0;
        }
        var errorSignal := record.predictedConfidence - outcome;
        ghost var w := learnedWeights[..];
        RawPositive(w, errorSignal, record.components);
        var sum := Descend(errorSignal, record.components);
        Normalize(sum);
      }
    }

    /** One gradient step with a floor under every weight. */
    method Descend(errorSignal: real, components: seq<real>) returns (sum: real)
      requires Valid() && |components| == 4
      modifies learnedWeights
      ensures learnedWeights[..] == Raw(old(learnedWeights[..]), errorSignal, components)
      ensures sum == Prefix(learnedWeights[..], 4)
    {
      hide Stepped;
      ghost var w := learnedWeights[..];
      ghost var raw := Raw(w, errorSignal, components);
      var learningRate := 0.01;
      sum := 0.0;
      for i := 0 to 4
        invariant sum == Prefix(raw, i)
        invariant forall j :: 0 <= j < i ==> learnedWeights[j] == raw[j]
        invariant forall j :: i <= j < 4 ==> learnedWeights[j] == w[j]
      {
        learnedWeights[i] := learnedWeights[i] - learningRate * errorSignal * components[i];
        if learnedWeights[i] < 0.05 {
          learnedWeights[i] := 0.05;
        }
        SteppedIs(w[i], errorSignal, components[i]);
        sum := sum + learnedWeights[i];
      }
      assert learnedWeights[..] == raw;
    }

    method Normalize(sum: real)
      requires Valid() && sum != 0.0
      modifies learnedWeights
      ensures forall i :: 0 <= i < 4 ==> Times(learnedWeights[i], sum) == old(learnedWeights[i])
    {
      hide Times;
      for i := 0 to 4
        invariant forall j :: 0 <= j < i ==> Times(learnedWeights[j], sum) == old(learnedWeights[j])
        invariant forall j :: i <= j < 4 ==> learnedWeights[j] == old(learnedWeights[j])
      {
        learnedWeights[i] := Divide(learnedWeights[i], sum);
      }
    }

    method ComputeECE(numBins: int) returns (ece: real)
      requires Binnable(records, numBins)
      ensures IsECE(records, numBins, ece)
    {
      if |records| == 0 {
        return 0.0;
      }
      hide Tallied, Times, Sum, Gap, TotalGap;
      var bins := Tally(numBins);
      ece := 0.0;
      NoBins(records, numBins, records.Keys, |records| as real);
      var totalSamples := |records| as real;
      for b := 0 to numBins
        invariant Times(ece, totalSamples) == TotalGap(records, numBins, records.Keys, b)
        invariant forall j :: 0 <= j < numBins ==> Tallied(records, numBins, records.Keys, j, bins[j])
      {
        NextGap(records, numBins, records.Keys, b, bins[b]);
        if bins[b].count > 0 {
          var share := Share(bins[b], totalSamples);
          TimesSum(ece, share, totalSamples);
          ece := ece + share;
        }
      }
    }

    /** The weighted calibration gap of one bin. */
    static method Share(bin: Bin, totalSamples: real) returns (share: real)
      requires bin.count > 0 && totalSamples > 0.0
      ensures Times(share, totalSamples) == Abs(bin.totalConf - bin.hits as real)
    {
      hide Times;
      var meanConf := Divide(bin.totalConf, bin.count as real);
      var accuracy := Divide(bin.hits as real, bin.count as real);
      var weight := Divide(bin.count as real, totalSamples);
      BinShare(bin.totalConf, bin.hits as real, bin.count as real, totalSamples, meanConf, accuracy, weight);
      share := weight * Abs(meanConf - accuracy);
    }

    /** Count one record in its bin. */
    static method Place(bins: array<Bin>, rec: FeedbackRecord)
      requires bins.Length >= 1 && Times(rec.predictedConfidence, bins.Length as real) > -1.0
      modifies bins
      ensures var b := BinOf(rec.predictedConfidence, bins.Length);
              0 <= b < bins.Length && bins[..] == old(bins[..])[b := Counted(old(bins[..])[b], rec)]
    {
      var binIdx := Trunc(Times(rec.predictedConfidence, bins.Length as real));
      if binIdx >= bins.Length {
        binIdx := bins.Length - 1;
      }
      BinInRangeIff(rec.predictedConfidence, bins.Length);
      bins[binIdx] := bins[binIdx].(totalConf := bins[binIdx].totalConf + rec.predictedConfidence);
      bins[binIdx] := bins[binIdx].(count := bins[binIdx].count + 1);
      if rec.predictedRootCause == rec.confirmedRootCause {
        bins[binIdx] := bins[binIdx].(hits := bins[binIdx].hits + 1);
      }
    }

    /** Put every record in its bin, visiting them in any order. */
    method Tally(numBins: int) returns (bins: array<Bin>)
      requires Binnable(records, numBins) && records != map[]
      ensures bins.Length == numBins && forall b :: 0 <= b < numBins ==> Tallied(records, numBins, records.Keys, b, bins[b])
    {
      hide Tallied, BinOf, Trunc;
      bins := new Bin[numBins](_ => Bin(0.0, 0, 0));
      NothingTallied(records, numBins);
      var rest := records.Keys;
      ghost var done: set<string> := {};
      while rest != {}
        invariant rest <= records.Keys && done == records.Keys - rest
        invariant forall b :: 0 <= b < numBins ==> Tallied(records, numBins, done, b, bins[b])
        decreases |rest|
      {
        var k :| k in rest;
        rest := rest - {k};
        ghost var was := bins[..];
        Place(bins, records[k]);
        ghost var own := BinOf(records[k].predictedConfidence, numBins);
        forall b | 0 <= b < numBins
          ensures Tallied(records, numBins, done + {k}, b, bins[b])
        {
          TallyOne(records, numBins, done, k, b, was[b]);
          assert bins[..][b] == if b == own then Counted(was[b], records[k]) else was[b];
        }
        done := done + {k};
      }
      assert done == records.Keys;
    }

    method ComputeBrierScore() returns (score: real)
      ensures IsBrier(records, score)
    {
      if |records| == 0 {
        return 0.0;
      }
      hide Sum, Value, Times;
      var sumSq := 0.0;
      var rest := records.Keys;
      ghost var done: set<string> := {};
      assert Sum(records, 1, SquaredError, done) == 0.0 by {
        SumOfNone(records, 1, SquaredError);
      }
      while rest != {}
        invariant rest <= records.Keys && done == records.Keys - rest && sumSq == Sum(records, 1, SquaredError, done)
        decreases |rest|
      {
        var k :| k in rest;
        rest := rest - {k};
        var rec := records[k];
        var outcome := 0.0;
        if rec.predictedRootCause == rec.confirmedRootCause {
          outcome := 1.0;
        }
        var diff := rec.predictedConfidence - outcome;
        sumSq := sumSq + diff * diff;
        SquaredErrorOf(records, k, diff);
        SumIn(records, 1, SquaredError, done, k);
        done := done + {k};
      }
      assert done == records.Keys;
      score := Divide(sumSq, |records| as real);
    }
  }

  // ---------------------------------------------------------------------
  // Bins

  ghost predicate Tallied(records: Records, numBins: int, s: set<string>, b: int, bin: Bin) {
    && bin.totalConf == Sum(records, numBins, ConfIn(b), s)
    && bin.hits as real == Sum(records, numBins, HitsIn(b), s)
    && bin.count as real == Sum(records, numBins, CountIn(b), s)
  }

  lemma SumOfNone(records: Records, numBins: int, m: Measure)
    ensures Sum(records, numBins, m, {}) == 0.0
  {
  }

  lemma SquaredErrorOf(records: Records, k: string, diff: real)
    requires k in records && diff == Error(records[k])
    ensures Value(records, 1, SquaredError, k) == diff * diff
  {
  }

  lemma NothingTallied(records: Records, numBins: int)
    ensures forall b :: Tallied(records, numBins, {}, b, Bin(0.0, 0, 0))
  {
  }

  /** One more record counts in its own bin only. */
  lemma TallyOne(records: Records, numBins: int, s: set<string>, k: string, b: int, bin: Bin)
    requires k in records && k !in s && Tallied(records, numBins, s, b, bin)
    ensures Tallied(records, numBins, s + {k}, b,
                    if BinOf(records[k].predictedConfidence, numBins) == b then Counted(bin, records[k]) else bin)
  {
    hide Sum, BinOf;
    SumIn(records, numBins, ConfIn(b), s, k);
    SumIn(records, numBins, HitsIn(b), s, k);
    SumIn(records, numBins, CountIn(b), s, k);
  }

  lemma NoBins(records: Records, numBins: int, s: set<string>, total: real)
    ensures Times(0.0, total) == TotalGap(records, numBins, s, 0)
  {
  }

  lemma NextGap(records: Records, numBins: int, s: set<string>, b: nat, bin: Bin)
    requires Tallied(records, numBins, s, b, bin)
    ensures TotalGap(records, numBins, s, b + 1) == TotalGap(records, numBins, s, b) + Abs(bin.totalConf - bin.hits as real)
    ensures bin.count <= 0 ==> bin.totalConf == bin.hits as real
  {
    EmptyBin(records, numBins, s, b);
  }

  /** A bin that counts nothing has no gap. */
  lemma {:induction false} EmptyBin(records: Records, numBins: int, s: set<string>, b: int)
    ensures Sum(records, numBins, CountIn(b), s) >= 0.0
    ensures Sum(records, numBins, CountIn(b), s) <= 0.0 ==> Gap(records, numBins, s, b) == 0.0
    decreases |s|
  {
    if k :| k in s {
      EmptyBin(records, numBins, s - {k}, b);
      SumOut(records, numBins, ConfIn(b), s, k);
      SumOut(records, numBins, HitsIn(b), s, k);
      SumOut(records, numBins, CountIn(b), s, k);
    }
  }

  /** Weight times mean gap is the bin's total gap over the number of samples. */
  lemma BinShare(conf: real, hits: real, count: real, total: real, mean: real, accuracy: real, weight: real)
    requires count > 0.0 && Times(mean, count) == conf && Times(accuracy, count) == hits && Times(weight, total) == count
    ensures Times(weight * Abs(mean - accuracy), total) == Abs(conf - hits)
  {
    var gap := Abs(mean - accuracy);
    assert Times(weight * gap, total) == Times(gap, Times(weight, total));
    if mean >= accuracy {
      assert Times(gap, count) == conf - hits;
      MulMonotone(accuracy, mean, count);
    } else {
      assert Times(gap, count) == hits - conf;
      MulMonotone(mean, accuracy, count);
    }
  }

  lemma TimesSum(a: real, b: real, c: real)
    ensures Times(a + b, c) == Times(a, c) + Times(b, c)
  {
  }

  // ---------------------------------------------------------------------
  // Learned weights

  ghost function Uniform(): seq<real> {
    [0.25, 0.25, 0.25, 0.25]
  }

  /** One floored step: with learning rate 0.01 and a floor of 0.05. */
  ghost function Stepped(x: real, errorSignal: real, component: real): real {
    var y := x - 0.01 * errorSignal * component;
    if y < 0.05 then 0.05 else y
  }

  lemma SteppedIs(x: real, errorSignal: real, component: real)
    ensures var y := x - 0.01 * errorSignal * component;
            Stepped(x, errorSignal, component) == if y < 0.05 then 0.05 else y
  {
  }

  /** The weights after the gradient step, before they are normalised. */
  ghost function Raw(w: seq<real>, errorSignal: real, components: seq<real>): (r: seq<real>)
    requires |w| == 4 && |components| == 4
    ensures |r| == 4 && forall i :: 0 <= i < 4 ==> r[i] == Stepped(w[i], errorSignal, components[i])
  {
    seq(4, i requires 0 <= i < 4 => Stepped(w[i], errorSignal, components[i]))
  }

  ghost function Prefix(w: seq<real>, n: nat): real
    requires n <= |w|
  {
    if n == 0 then 0.0 else Prefix(w, n - 1) + w[n - 1]
  }

  ghost predicate Updated(w: seq<real>, rec: FeedbackRecord, w': seq<real>)
    requires |w| == 4
  {
    if |rec.components| != 4 then w' == w
    else
      var raw := Raw(w, Error(rec), rec.components);
      |w'| == 4 && forall i :: 0 <= i < 4 ==> Times(w'[i], Prefix(raw, 4)) == raw[i]
  }

  lemma PrefixOfFour(w: seq<real>)
    requires |w| == 4
    ensures Prefix(w, 4) == w[0] + w[1] + w[2] + w[3]
  {
    assert Prefix(w, 1) == w[0] && Prefix(w, 2) == w[0] + w[1] && Prefix(w, 3) == w[0] + w[1] + w[2];
  }

  lemma RawPositive(w: seq<real>, errorSignal: real, components: seq<real>)
    requires |w| == 4 && |components| == 4
    ensures forall i :: 0 <= i < 4 ==> Raw(w, errorSignal, components)[i] >= 0.05
    ensures Prefix(Raw(w, errorSignal, components), 4) >= 0.2
  {
    PrefixOfFour(Raw(w, errorSignal, components));
  }

  ghost predicate Sums(w: seq<real>, total: real) {
    |w| == 4 && Prefix(w, 4) == total
  }

  /** Whatever the inputs, the new weights are positive and sum to one. */
  lemma UpdateSumsToOne(w: seq<real>, rec: FeedbackRecord, w': seq<real>)
    requires Sums(w, 1.0) && Updated(w, rec, w') && forall i :: 0 <= i < 4 ==> w[i] > 0.0
    ensures Sums(w', 1.0) && forall i :: 0 <= i < 4 ==> w'[i] > 0.0
  {
    hide Times, Error, Raw;
    if |rec.components| == 4 {
      var raw := Raw(w, Error(rec), rec.components);
      RawPositive(w, Error(rec), rec.components);
      SharesSumToOne(raw, w');
    }
  }

  lemma SharesSumToOne(raw: seq<real>, w: seq<real>)
    requires |raw| == |w| == 4 && Prefix(raw, 4) > 0.0
    requires forall i :: 0 <= i < 4 ==> raw[i] >= 0.05 && Times(w[i], Prefix(raw, 4)) == raw[i]
    ensures Prefix(w, 4) == 1.0 && forall i :: 0 <= i < 4 ==> w[i] > 0.0
  {
    hide Times;
    var total, sum := Prefix(raw, 4), Prefix(w, 4);
    PrefixOfFour(raw);
    PrefixOfFour(w);
    TimesUnits(total);
    TimesFour(total, w[0], w[1], w[2], w[3]);
    CancelFactor(total, sum, 1.0);
    CancelFactor(total, 1.0, sum);
    forall i | 0 <= i < 4
      ensures w[i] > 0.0
    {
      TimesCommutes(total, w[i]);
      if w[i] <= 0.0 {
        MulMonotone(w[i], 0.0, total);
      }
    }
  }

  lemma TimesFour(t: real, a: real, b: real, c: real, d: real)
    ensures Times(t, a + b + c + d) == Times(a, t) + Times(b, t) + Times(c, t) + Times(d, t)
  {
  }

  lemma TimesCommutes(a: real, b: real)
    ensures Times(a, b) == Times(b, a)
  {
  }

  /** A prediction that was wrong, made with some confidence, on components none of which is negative. */
  ghost predicate WronglyConfident(rec: FeedbackRecord) {
    && rec.predictedRootCause != rec.confirmedRootCause && rec.predictedConfidence > 0.0
    && |rec.components| == 4 && forall i :: 0 <= i < 4 ==> rec.components[i] >= 0.0
  }

  /** What a weight would be without the floor after such a prediction. */
  ghost predicate FallsTo(w: seq<real>, rec: FeedbackRecord, i: nat, y: real)
    requires i < |w| && i < |rec.components|
  {
    y == w[i] - 0.01 * Times(rec.predictedConfidence, rec.components[i])
  }

  /** After a wrong and confident prediction no weight rises before normalisation, unless to the
      floor, and above the floor a weight falls by a hundredth of confidence times component. */
  lemma WrongLowers(w: seq<real>, rec: FeedbackRecord, w': seq<real>) returns (total: real)
    requires |w| == 4 && Updated(w, rec, w') && WronglyConfident(rec)
    ensures |w'| == 4 && total >= 0.2
    ensures forall i :: 0 <= i < 4 ==>
              0.05 <= Times(w'[i], total) && (Times(w'[i], total) <= w[i] || Times(w'[i], total) == 0.05)
    ensures forall i, y :: 0 <= i < 4 && FallsTo(w, rec, i, y) ==> Times(w'[i], total) == if y < 0.05 then 0.05 else y
  {
    var raw := Raw(w, Error(rec), rec.components);
    RawPositive(w, Error(rec), rec.components);
    total := Prefix(raw, 4);
    forall i | 0 <= i < 4
      ensures raw[i] <= w[i] || raw[i] == 0.05
      ensures forall y :: FallsTo(w, rec, i, y) ==> raw[i] == if y < 0.05 then 0.05 else y
    {
      MulMonotone(0.0, rec.components[i], rec.predictedConfidence);
      TimesUnits(rec.predictedConfidence);
      assert 0.01 * Error(rec) * rec.components[i] == 0.01 * Times(rec.predictedConfidence, rec.components[i]);
    }
  }

  /** So of two equal weights the one with the larger part in a wrong prediction ends up smaller. */
  lemma WrongShifts(w: seq<real>, rec: FeedbackRecord, w': seq<real>, i: nat, j: nat, y: real)
    requires |w| == 4 && Updated(w, rec, w') && WronglyConfident(rec)
    requires i < 4 && j < 4 && w[i] == w[j] && rec.components[i] > rec.components[j]
    requires FallsTo(w, rec, j, y) && y > 0.05
    ensures |w'| == 4 && w'[i] < w'[j]
  {
    hide Updated, Times;
    var total := WrongLowers(w, rec, w');
    var c, part := rec.predictedConfidence, rec.components;
    var z := w[i] - 0.01 * Times(c, part[i]);
    assert FallsTo(w, rec, i, z) && z < y by {
      MulPositive(c, part[i] - part[j]);
      TimesDistributes(c, part[i], part[j]);
    }
    if w'[i] >= w'[j] {
      MulMonotone(w'[j], w'[i], total);
    }
  }

  /** A right prediction, made with less than full confidence, lowers no weight before normalisation. */
  lemma RightRaises(w: seq<real>, rec: FeedbackRecord, w': seq<real>) returns (total: real)
    requires |w| == 4 && Updated(w, rec, w') && |rec.components| == 4
    requires rec.predictedRootCause == rec.confirmedRootCause && rec.predictedConfidence <= 1.0
    requires forall i :: 0 <= i < 4 ==> rec.components[i] >= 0.0
    ensures |w'| == 4 && total >= 0.2 && forall i :: 0 <= i < 4 ==> Times(w'[i], total) >= w[i]
  {
    var raw := Raw(w, Error(rec), rec.components);
    RawPositive(w, Error(rec), rec.components);
    total := Prefix(raw, 4);
    forall i | 0 <= i < 4
      ensures raw[i] >= w[i]
    {
      MulMonotone(0.0, rec.components[i], -Error(rec));
      TimesUnits(-Error(rec));
      assert 0.01 * Error(rec) * rec.components[i] == -0.01 * Times(-Error(rec), rec.components[i]);
    }
  }

  ghost predicate InUnit(rec: FeedbackRecord) {
    && 0.0 <= rec.predictedConfidence <= 1.0
    && forall i :: 0 <= i < |rec.components| ==> 0.0 <= rec.components[i] <= 1.0
  }

  /** Every weight is at least 5/104 (and so, of four that sum to one, at most 89/104). */
  ghost predicate Floored(w: seq<real>) {
    |w| == 4 && forall i :: 0 <= i < 4 ==> w[i] >= 5.0 / 104.0
  }

  lemma SmallStep(x: real, errorSignal: real, component: real)
    requires x >= 5.0 / 104.0 && -1.0 <= errorSignal <= 1.0 && 0.0 <= component <= 1.0
    ensures 0.05 <= Stepped(x, errorSignal, component) <= x + 0.01
  {
    MulMonotone(errorSignal, 1.0, component);
    MulMonotone(-1.0, errorSignal, component);
    assert 0.01 * errorSignal * component == 0.01 * Times(errorSignal, component);
  }

  lemma UpdateKeepsFloor(w: seq<real>, rec: FeedbackRecord, w': seq<real>)
    requires Sums(w, 1.0) && Floored(w) && Updated(w, rec, w') && InUnit(rec)
    ensures Floored(w')
  {
    if |rec.components| == 4 {
      var raw := Raw(w, Error(rec), rec.components);
      var total := Prefix(raw, 4);
      forall i | 0 <= i < 4
        ensures 0.05 <= raw[i] <= w[i] + 0.01
      {
        SmallStep(w[i], Error(rec), rec.components[i]);
      }
      PrefixOfFour(w);
      PrefixOfFour(raw);
      forall i | 0 <= i < 4
        ensures w'[i] >= 5.0 / 104.0
      {
        MulMonotone(total, 1.04, 5.0 / 104.0);
        assert Times(total, 5.0 / 104.0) <= Times(1.04, 5.0 / 104.0) == 0.05;
        TimesCommutes(total, w'[i]);
        CancelFactor(total, 5.0 / 104.0, w'[i]);
      }
    }
  }

  /** The weights after each record of a run, starting from a new store. */
  ghost predicate WeightRun(ws: seq<seq<real>>, recs: seq<FeedbackRecord>) {
    && |ws| == |recs| + 1 && ws[0] == Uniform()
    && forall i :: 0 <= i < |recs| ==> |ws[i]| == 4 && Updated(ws[i], recs[i], ws[i + 1])
  }

  /** Over any run of feedback the weights are positive and sum to one. */
  lemma {:induction false} WeightsSumToOne(ws: seq<seq<real>>, recs: seq<FeedbackRecord>, n: nat)
    requires WeightRun(ws, recs) && n <= |recs|
    ensures Sums(ws[n], 1.0) && forall i :: 0 <= i < 4 ==> ws[n][i] > 0.0
  {
    if n == 0 {
      PrefixOfFour(Uniform());
    } else {
      WeightsSumToOne(ws, recs, n - 1);
      UpdateSumsToOne(ws[n - 1], recs[n - 1], ws[n - 1 + 1]);
    }
  }

  /** With every input between zero and one, no weight ever leaves 5/104 .. 89/104. */
  lemma {:induction false} WeightsStayBounded(ws: seq<seq<real>>, recs: seq<FeedbackRecord>, n: nat)
    requires WeightRun(ws, recs) && n <= |recs| && forall j :: 0 <= j < |recs| ==> InUnit(recs[j])
    ensures |ws[n]| == 4 && forall i :: 0 <= i < 4 ==> 5.0 / 104.0 <= ws[n][i] <= 89.0 / 104.0
  {
    WeightsSumToOne(ws, recs, n);
    PrefixOfFour(ws[n]);
    if n > 0 {
      WeightsStayBounded(ws, recs, n - 1);
      WeightsSumToOne(ws, recs, n - 1);
      UpdateKeepsFloor(ws[n - 1], recs[n - 1], ws[n - 1 + 1]);
    }
  }

  // ---------------------------------------------------------------------
  // Calibration error against Brier score

  ghost function OfBin(m: Measure, b: int): Measure {
    match m
    case Confidence => ConfIn(b)
    case Hit => HitsIn(b)
    case _ => CountIn(b)
  }

  ghost function SumBins(records: Records, numBins: int, m: Measure, s: set<string>, n: nat): real {
    if n == 0 then 0.0 else SumBins(records, numBins, m, s, n - 1) + Sum(records, numBins, OfBin(m, n - 1), s)
  }

  ghost predicate Placed(records: Records, numBins: int, s: set<string>) {
    forall k :: k in s ==> k in records && 0 <= BinOf(records[k].predictedConfidence, numBins) < numBins
  }

  lemma {:induction false} SumBinsStep(records: Records, numBins: int, m: Measure, s: set<string>, k: string, n: nat)
    requires k in s && Placed(records, numBins, s) && m in {Confidence, Hit, One}
    ensures SumBins(records, numBins, m, s, n) == SumBins(records, numBins, m, s - {k}, n)
            + if BinOf(records[k].predictedConfidence, numBins) < n then Value(records, numBins, m, k) else 0.0
  {
    if n > 0 {
      SumBinsStep(records, numBins, m, s, k, n - 1);
      SumOut(records, numBins, OfBin(m, n - 1), s, k);
    }
  }

  /** The bins share out the records: nothing is lost and nothing counted twice. */
  lemma {:induction false} BinsPartition(records: Records, numBins: nat, m: Measure, s: set<string>)
    requires Placed(records, numBins, s) && m in {Confidence, Hit, One}
    ensures SumBins(records, numBins, m, s, numBins) == Sum(records, numBins, m, s)
    decreases |s|
  {
    if k :| k in s {
      BinsPartition(records, numBins, m, s - {k});
      SumBinsStep(records, numBins, m, s, k, numBins);
      SumOut(records, numBins, m, s, k);
    } else {
      EmptyBins(records, numBins, m, numBins);
    }
  }

  lemma {:induction false} EmptyBins(records: Records, numBins: int, m: Measure, n: nat)
    ensures SumBins(records, numBins, m, {}, n) == 0.0
  {
    if n > 0 {
      EmptyBins(records, numBins, m, n - 1);
    }
  }

  lemma {:induction false} SumOfOnes(records: Records, numBins: int, s: set<string>)
    requires s <= records.Keys
    ensures Sum(records, numBins, One, s) == |s| as real
    decreases |s|
  {
    if k :| k in s {
      SumOfOnes(records, numBins, s - {k});
      SumOut(records, numBins, One, s, k);
    }
  }

  lemma GapStep(records: Records, numBins: int, s: set<string>, k: string, b: int)
    requires k in s && k in records
    ensures Gap(records, numBins, s, b) == Gap(records, numBins, s - {k}, b)
            + if BinOf(records[k].predictedConfidence, numBins) == b then Error(records[k]) else 0.0
  {
    SumOut(records, numBins, ConfIn(b), s, k);
    SumOut(records, numBins, HitsIn(b), s, k);
  }

  lemma {:induction false} TotalGapStep(records: Records, numBins: int, s: set<string>, k: string, n: nat)
    requires k in s && Placed(records, numBins, s)
    ensures TotalGap(records, numBins, s, n) <= TotalGap(records, numBins, s - {k}, n)
            + if BinOf(records[k].predictedConfidence, numBins) < n then Abs(Error(records[k])) else 0.0
  {
    hide Gap, BinOf, Error;
    if n > 0 {
      TotalGapStep(records, numBins, s, k, n - 1);
      GapStep(records, numBins, s, k, n - 1);
    }
  }

  /** Errors inside a bin can only cancel. */
  lemma {:induction false} TotalGapBelowErrors(records: Records, numBins: nat, s: set<string>)
    requires Placed(records, numBins, s)
    ensures TotalGap(records, numBins, s, numBins) <= Sum(records, numBins, AbsError, s)
    decreases |s|
  {
    if k :| k in s {
      TotalGapBelowErrors(records, numBins, s - {k});
      TotalGapStep(records, numBins, s, k, numBins);
      SumOut(records, numBins, AbsError, s, k);
    } else {
      NoGap(records, numBins, numBins);
    }
  }

  lemma {:induction false} NoGap(records: Records, numBins: int, n: nat)
    ensures TotalGap(records, numBins, {}, n) == 0.0
  {
    if n > 0 {
      NoGap(records, numBins, n - 1);
    }
  }

  lemma {:induction false} TotalGapAboveBias(records: Records, numBins: int, s: set<string>, n: nat)
    ensures Abs(SumBins(records, numBins, Confidence, s, n) - SumBins(records, numBins, Hit, s, n))
         <= TotalGap(records, numBins, s, n)
  {
    if n > 0 {
      TotalGapAboveBias(records, numBins, s, n - 1);
    }
  }

  lemma SquareAround(d: real, m: real)
    ensures Sq(d) - 2.0 * Times(m, Abs(d)) + Sq(m) >= 0.0
  {
    SqNonNegative(Abs(d) - m);
    assert Sq(Abs(d) - m) == Sq(d) - 2.0 * Times(m, Abs(d)) + Sq(m);
  }

  /** Squared distances of the absolute errors from any m cannot sum below zero. */
  lemma {:induction false} ErrorsAround(records: Records, numBins: int, s: set<string>, m: real)
    requires s <= records.Keys
    ensures Sum(records, numBins, SquaredError, s) - 2.0 * Times(m, Sum(records, numBins, AbsError, s))
              + Times(|s| as real, Sq(m)) >= 0.0
    decreases |s|
  {
    if k :| k in s {
      ErrorsAround(records, numBins, s - {k}, m);
      SumOut(records, numBins, SquaredError, s, k);
      SumOut(records, numBins, AbsError, s, k);
      SquareAround(Error(records[k]), m);
      TimesDistributes(m, Abs(Error(records[k])), Sum(records, numBins, AbsError, s - {k}));
      TimesSum(|s - {k}| as real, 1.0, Sq(m));
      assert |s| as real == |s - {k}| as real + 1.0 && Times(1.0, Sq(m)) == Sq(m);
    }
  }

  lemma {:induction false} SameForAnyBins(records: Records, m: int, n: int, s: set<string>)
    ensures Sum(records, m, SquaredError, s) == Sum(records, n, SquaredError, s)
    decreases |s|
  {
    if k :| k in s {
      SameForAnyBins(records, m, n, s - {k});
      SumOut(records, m, SquaredError, s, k);
      SumOut(records, n, SquaredError, s, k);
    }
  }

  lemma BinnablePlaced(records: Records, numBins: int)
    requires Binnable(records, numBins) && records != map[]
    ensures Placed(records, numBins, records.Keys)
  {
    forall k | k in records
      ensures 0 <= BinOf(records[k].predictedConfidence, numBins) < numBins
    {
      BinInRangeIff(records[k].predictedConfidence, numBins);
    }
  }

  /** The square of the expected calibration error is at most the Brier score. */
  lemma EceBelowBrier(records: Records, numBins: int, e: real, b: real)
    requires Binnable(records, numBins) && IsECE(records, numBins, e) && IsBrier(records, b)
    ensures 0.0 <= e && Sq(e) <= b
  {
    if records != map[] {
      var s, total := records.Keys, |records| as real;
      assert |s| as real == total > 0.0;
      BinnablePlaced(records, numBins);
      TotalGapBelowErrors(records, numBins, s);
      TotalGapNonNegative(records, numBins, s, numBins);
      ErrorsAround(records, numBins, s, e);
      SameForAnyBins(records, 1, numBins, s);
      BrierAlgebra(total, e, b, Sum(records, numBins, AbsError, s));
    }
  }

  lemma {:induction false} TotalGapNonNegative(records: Records, numBins: int, s: set<string>, n: nat)
    ensures TotalGap(records, numBins, s, n) >= 0.0
    ensures TotalGap(records, numBins, s, n) == 0.0 <==> forall b :: 0 <= b < n ==> Gap(records, numBins, s, b) == 0.0
  {
    hide Gap;
    if n > 0 {
      TotalGapNonNegative(records, numBins, s, n - 1);
    }
  }

  lemma BrierAlgebra(total: real, e: real, b: real, errors: real)
    requires total > 0.0 && 0.0 <= Times(e, total) <= errors
    requires Times(b, total) - 2.0 * Times(e, errors) + Times(total, Sq(e)) >= 0.0
    ensures 0.0 <= e && Sq(e) <= b
  {
    TimesUnits(total);
    assert Times(total, e) == Times(e, total) && Times(total, b) == Times(b, total);
    CancelFactor(total, 0.0, e);
    MulMonotone(Times(e, total), errors, e);
    assert Times(e, Times(e, total)) == Times(total, Sq(e));
    CancelFactor(total, Sq(e), b);
  }

  /** The overall bias, mean confidence against accuracy, is at most the calibration error. */
  lemma BiasBelowEce(records: Records, numBins: int, e: real)
    requires Binnable(records, numBins) && IsECE(records, numBins, e) && records != map[]
    ensures Abs(Sum(records, numBins, Confidence, records.Keys) - Sum(records, numBins, Hit, records.Keys))
         <= Times(e, |records| as real)
  {
    BinnablePlaced(records, numBins);
    BinsPartition(records, numBins, Confidence, records.Keys);
    BinsPartition(records, numBins, Hit, records.Keys);
    TotalGapAboveBias(records, numBins, records.Keys, numBins);
  }

  /** No calibration error exactly when in every bin the confidence claimed is the hits made. */
  lemma CalibratedIff(records: Records, numBins: int, e: real)
    requires IsECE(records, numBins, e) && records != map[]
    ensures e == 0.0 <==> forall b :: 0 <= b < numBins ==> Gap(records, numBins, records.Keys, b) == 0.0
  {
    hide Gap;
    var total := |records| as real;
    assert total > 0.0;
    TotalGapNonNegative(records, numBins, records.Keys, numBins);
    TimesUnits(total);
    assert Times(e, total) == Times(total, e);
    CancelFactor(total, 0.0, e);
    if Times(e, total) == 0.0 {
      CancelFactor(total, e, 0.0);
    }
  }

  /** Bin counts add up to the records, bin hits to the correct predictions. */
  lemma CountsConserved(records: Records, numBins: nat)
    requires Binnable(records, numBins) && records != map[]
    ensures SumBins(records, numBins, One, records.Keys, numBins) == |records| as real
    ensures SumBins(records, numBins, Hit, records.Keys, numBins) == Sum(records, numBins, Hit, records.Keys)
  {
    BinnablePlaced(records, numBins);
    BinsPartition(records, numBins, One, records.Keys);
    BinsPartition(records, numBins, Hit, records.Keys);
    SumOfOnes(records, numBins, records.Keys);
  }

  // ---------------------------------------------------------------------
  // One confidence for all

  ghost predicate AllAt(records: Records, c: real) {
    forall k :: k in records ==> records[k].predictedConfidence == c
  }

  lemma {:induction false} ErrorsAt(records: Records, numBins: int, s: set<string>, c: real)
    requires AllAt(records, c) && s <= records.Keys
    ensures Sum(records, numBins, SquaredError, s)
         == Times(|s| as real, Sq(c)) - 2.0 * Times(c, Sum(records, numBins, Hit, s)) + Sum(records, numBins, Hit, s)
    decreases |s|
  {
    hide Sum, Value, Times, Sq;
    if k :| k in s {
      ErrorsAt(records, numBins, s - {k}, c);
      SumOut(records, numBins, SquaredError, s, k);
      SumOut(records, numBins, Hit, s, k);
      ValuesAt(records, numBins, k, c);
      ErrorAt(|s - {k}| as real, c, Outcome(records[k]), Sum(records, numBins, Hit, s - {k}));
      assert |s| as real == |s - {k}| as real + 1.0;
    } else {
      SumOfNone(records, numBins, SquaredError);
      SumOfNone(records, numBins, Hit);
      TimesUnits(c);
      TimesUnits(Sq(c));
      TimesCommutes(0.0, Sq(c));
    }
  }

  lemma ValuesAt(records: Records, numBins: int, k: string, c: real)
    requires AllAt(records, c) && k in records
    ensures Value(records, numBins, SquaredError, k) == Sq(c - Outcome(records[k]))
    ensures Value(records, numBins, Hit, k) == Outcome(records[k])
  {
  }

  lemma ErrorAt(n: real, c: real, o: real, hits: real)
    requires o == 0.0 || o == 1.0
    ensures Times(n, Sq(c)) - 2.0 * Times(c, hits) + hits + Sq(c - o)
         == Times(n + 1.0, Sq(c)) - 2.0 * Times(c, o + hits) + (o + hits)
  {
    assert Sq(c - o) == Sq(c) - 2.0 * Times(c, o) + Times(o, o);
    TimesDistributes(c, o, hits);
    TimesSum(n, 1.0, Sq(c));
    assert Times(1.0, Sq(c)) == Sq(c);
  }

  /** When every prediction claims c and a share h of them is right, the Brier score is the squared
      bias plus h (1 - h): least, and so honest, exactly at c = h. */
  lemma BrierAt(records: Records, c: real, h: real, b: real)
    requires AllAt(records, c) && records != map[] && IsBrier(records, b)
    requires Times(h, |records| as real) == Sum(records, 1, Hit, records.Keys)
    ensures b == Sq(c - h) + Times(h, 1.0 - h)
  {
    hide Sum;
    var n := |records| as real;
    assert n > 0.0 && |records.Keys| == |records|;
    ErrorsAt(records, 1, records.Keys, c);
    var v := Sq(c - h) + Times(h, 1.0 - h);
    BrierAtAlgebra(n, c, h, Times(h, n));
    TimesCommutes(n, b);
    TimesCommutes(n, v);
    CancelFactor(n, b, v);
    CancelFactor(n, v, b);
  }

  lemma BrierAtAlgebra(n: real, c: real, h: real, hits: real)
    requires Times(h, n) == hits
    ensures Times(Sq(c - h) + Times(h, 1.0 - h), n) == Times(n, Sq(c)) - 2.0 * Times(c, hits) + hits
  {
    hide Times, Sq;
    SpreadOut(c, h);
    ScaleThree(n, Sq(c), Times(c, h), h);
    TimesTwice(c, h, n);
    TimesCommutes(Sq(c), n);
  }

  lemma SpreadOut(c: real, h: real)
    ensures Sq(c - h) + Times(h, 1.0 - h) == Sq(c) - 2.0 * Times(c, h) + h
  {
  }

  lemma ScaleThree(n: real, a: real, t: real, h: real)
    ensures Times(a - 2.0 * t + h, n) == Times(a, n) - 2.0 * Times(t, n) + Times(h, n)
  {
  }

  lemma TimesTwice(a: real, b: real, c: real)
    ensures Times(Times(a, b), c) == Times(a, Times(b, c))
  {
  }

  lemma {:induction false} GapAt(records: Records, numBins: int, s: set<string>, c: real, b: int)
    requires AllAt(records, c) && s <= records.Keys
    ensures Gap(records, numBins, s, b) ==
              if b == BinOf(c, numBins) then Times(|s| as real, c) - Sum(records, numBins, Hit, s) else 0.0
    decreases |s|
  {
    hide BinOf;
    if k :| k in s {
      GapAt(records, numBins, s - {k}, c, b);
      GapStep(records, numBins, s, k, b);
      SumOut(records, numBins, Hit, s, k);
      TimesSum(|s - {k}| as real, 1.0, c);
      assert |s| as real == |s - {k}| as real + 1.0 && Times(1.0, c) == c;
    } else {
      assert Times(0.0, c) == 0.0;
    }
  }

  lemma {:induction false} TotalGapAt(records: Records, numBins: int, c: real, n: nat)
    requires AllAt(records, c) && BinOf(c, numBins) >= 0
    ensures TotalGap(records, numBins, records.Keys, n) ==
              if BinOf(c, numBins) < n then Abs(Times(|records| as real, c) - Sum(records, numBins, Hit, records.Keys)) else 0.0
  {
    hide BinOf, Sum, Gap, Times;
    if n > 0 {
      assert |records.Keys| == |records|;
      TotalGapAt(records, numBins, c, n - 1);
      GapAt(records, numBins, records.Keys, c, n - 1);
    }
  }

  /** Then the expected calibration error is the bias itself. */
  lemma EceAt(records: Records, numBins: int, c: real, h: real, e: real)
    requires AllAt(records, c) && records != map[] && Binnable(records, numBins) && IsECE(records, numBins, e)
    requires Times(h, |records| as real) == Sum(records, numBins, Hit, records.Keys)
    ensures e == Abs(c - h)
  {
    hide Sum, BinOf, TotalGap;
    var n := |records| as real;
    var k :| k in records;
    assert records[k].predictedConfidence == c && n > 0.0;
    BinInRangeIff(c, numBins);
    TotalGapAt(records, numBins, c, numBins);
    AbsOfProduct(n, c, h);
    TimesCommutes(n, e);
    TimesCommutes(n, Abs(c - h));
    CancelFactor(n, e, Abs(c - h));
    CancelFactor(n, Abs(c - h), e);
  }

  lemma AbsOfProduct(n: real, c: real, h: real)
    requires n > 0.0
    ensures Abs(Times(n, c) - Times(h, n)) == Times(Abs(c - h), n)
  {
    assert Times(c - h, n) == Times(n, c) - Times(h, n);
    MulMonotone(0.0, Abs(c - h), n);
    assert Times(Abs(c - h), n) == Times(c - h, n) || Times(Abs(c - h), n) == -Times(c - h, n);
  }
}
