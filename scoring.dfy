/**
  The drowsiness score of drowsiness_detector.py, as a function of the
  frames seen so far.

  The score is a leaky bucket: a frame whose EAR is below EarThreshold adds
  one, any other frame with a face removes one, never going below zero, and a
  frame without a face leaves it alone. The alert holds when the score is
  strictly above ScoreThreshold. Each frame with a face yields one log record.
  The functions here specify the Session class in module Detector.
*/
module Scoring {
  import opened LogStore

  const EarThreshold: real := 0.25
  const ScoreThreshold: nat := 15

  /** What the frame loop derived from one frame: no face, or a face with its
      mean EAR and the clock reading at logging time. */
  datatype Reading = NoFace | Face(ear: real, time: string)

  /** One score update for a frame with a face. */
  function UpdateScore(score: nat, ear: real): (r: nat)
    ensures ear < EarThreshold ==> r == score + 1
    ensures ear >= EarThreshold ==> r + 1 == score || r == score == 0
  {
    if ear < EarThreshold then score + 1
    else
      var decremented := score - 1;
      if decremented < 0 then 0 else decremented
  }

  predicate ShouldAlert(score: nat)
  {
    score > ScoreThreshold
  }

  /** The alert is strict: 15 does not alert, 16 does, and a higher score
      alerts whenever a lower one does. */
  lemma AlertThreshold(s: nat, t: nat)
    ensures !ShouldAlert(15) && ShouldAlert(16)
    ensures s <= t && ShouldAlert(s) ==> ShouldAlert(t)
  {
  }

  /** The log's Alert column. */
  function AlertField(alert: bool): (s: string)
    ensures s == "Yes" <==> alert
    ensures s == "Yes" || s == "No"
  {
    if alert then "Yes" else "No"
  }

  /** round(x, 3) on an exact real: to the nearest thousandth, a tie going to
      the even neighbour. */
  function Round3(x: real): (r: real)
    ensures -0.0005 <= r - x <= 0.0005
    ensures (r * 1000.0).Floor as real == r * 1000.0
    ensures x * 1000.0 - (x * 1000.0).Floor as real == 0.5 ==> (r * 1000.0).Floor % 2 == 0
  {
    var y := x * 1000.0;
    var f := y.Floor;
    var frac := y - f as real;
    var n := if frac < 0.5 then f
             else if frac > 0.5 then f + 1
             else if f % 2 == 0 then f else f + 1;
    assert (n as real / 1000.0) * 1000.0 == n as real;
    n as real / 1000.0
  }

  /** Rounding an already rounded value changes nothing. */
  lemma Round3Idempotent(x: real)
    ensures Round3(Round3(x)) == Round3(x)
  {
    var r := Round3(x);
    var n := (r * 1000.0).Floor;
    assert (r * 1000.0).Floor == n;
    assert n as real / 1000.0 == r;
  }

  /** The score after one frame: it moves by at most one, and stays put
      only for a frame without a face or an open-eye frame at score 0. */
  function StepScore(score: nat, r: Reading): (s: nat)
    ensures -1 <= s - score <= 1
    ensures s == score <==> r.NoFace? || (score == 0 && r.ear >= EarThreshold)
  {
    match r
    case NoFace => score
    case Face(ear, _) => UpdateScore(score, ear)
  }

  /** The records one frame appends: none without a face, else one holding
      the updated score and whether it alerts. */
  function FrameRecords(score: nat, r: Reading): (recs: seq<Record>)
    ensures |recs| == if r.Face? then 1 else 0
    ensures r.Face? ==> recs[0].time == r.time && recs[0].ear == Round3(r.ear) &&
                        recs[0].score == StepScore(score, r) &&
                        (recs[0].alert == "Yes" <==> recs[0].score > ScoreThreshold)
  {
    match r
    case NoFace => []
    case Face(ear, time) =>
      var s := UpdateScore(score, ear);
      [Record(time, Round3(ear), s, AlertField(ShouldAlert(s)))]
  }

  /** The score after a sequence of frames, starting from s. */
  function ScoreAfter(s: nat, rs: seq<Reading>): nat
    decreases |rs|
  {
    if rs == [] then s else StepScore(ScoreAfter(s, rs[..|rs| - 1]), rs[|rs| - 1])
  }

  /** The records a sequence of frames appends, starting from score s. */
  function Records(s: nat, rs: seq<Reading>): seq<Record>
    decreases |rs|
  {
    if rs == [] then []
    else
      var p := rs[..|rs| - 1];
      Records(s, p) + FrameRecords(ScoreAfter(s, p), rs[|rs| - 1])
  }

  /** How many records raise the alert. */
  function AlertCount(recs: seq<Record>): nat
    decreases |recs|
  {
    if recs == [] then 0
    else AlertCount(recs[..|recs| - 1]) + (if recs[|recs| - 1].alert == "Yes" then 1 else 0)
  }

  /** The frames that had a face, in order. */
  function Faces(rs: seq<Reading>): seq<Reading>
    decreases |rs|
  {
    if rs == [] then []
    else Faces(rs[..|rs| - 1]) + (if rs[|rs| - 1].Face? then [rs[|rs| - 1]] else [])
  }

  /** The frames with a face whose EAR is below the threshold. */
  function LowCount(rs: seq<Reading>): nat
    decreases |rs|
  {
    if rs == [] then 0
    else
      var last := rs[|rs| - 1];
      LowCount(rs[..|rs| - 1]) + (if last.Face? && last.ear < EarThreshold then 1 else 0)
  }

  /** The frames with a face whose EAR is at or above the threshold. */
  function HighCount(rs: seq<Reading>): nat
    decreases |rs|
  {
    if rs == [] then 0
    else
      var last := rs[|rs| - 1];
      HighCount(rs[..|rs| - 1]) + (if last.Face? && last.ear >= EarThreshold then 1 else 0)
  }

  /** What a frame would add to an unfloored counter. */
  function Delta(r: Reading): int
  {
    match r
    case NoFace => 0
    case Face(ear, _) => if ear < EarThreshold then 1 else -1
  }

  /** The unfloored sum of a sequence of frames. */
  function Net(rs: seq<Reading>): int
    decreases |rs|
  {
    if rs == [] then 0 else Net(rs[..|rs| - 1]) + Delta(rs[|rs| - 1])
  }

  predicate AllLow(rs: seq<Reading>)
  {
    forall i :: 0 <= i < |rs| ==> rs[i].Face? && rs[i].ear < EarThreshold
  }

  predicate AllHigh(rs: seq<Reading>)
  {
    forall i :: 0 <= i < |rs| ==> rs[i].Face? && rs[i].ear >= EarThreshold
  }

  /** One frame is the counter clamped at zero: max(score + Delta(r), 0). */
  lemma StepIsClamp(score: nat, r: Reading)
    ensures StepScore(score, r) == if score + Delta(r) < 0 then 0 else score + Delta(r)
  {
  }

  /** Running two stretches of frames one after the other is running their
      concatenation: the score carries over and the second stretch's records
      go after the first's. */
  lemma {:induction false} Compose(s: nat, p: seq<Reading>, q: seq<Reading>)
    ensures ScoreAfter(s, p + q) == ScoreAfter(ScoreAfter(s, p), q)
    ensures Records(s, p + q) == Records(s, p) + Records(ScoreAfter(s, p), q)
    decreases |q|
  {
    if q == [] {
      assert p + q == p;
    } else {
      var q' := q[..|q| - 1];
      assert (p + q)[..|p + q| - 1] == p + q';
      assert (p + q)[|p + q| - 1] == q[|q| - 1];
      Compose(s, p, q');
    }
  }

  /** Unbroken closed-eye frames count up by one each, with no cap: the i-th
      record holds s + i + 1. */
  lemma {:induction false} LowRunCountsUp(s: nat, rs: seq<Reading>)
    requires AllLow(rs)
    ensures ScoreAfter(s, rs) == s + |rs|
    ensures |Records(s, rs)| == |rs|
    ensures forall i :: 0 <= i < |rs| ==> Records(s, rs)[i].score == s + i + 1
    decreases |rs|
  {
    if rs != [] {
      var p := rs[..|rs| - 1];
      assert AllLow(p) by {
        forall i | 0 <= i < |p| ensures p[i].Face? && p[i].ear < EarThreshold {
          assert p[i] == rs[i];
        }
      }
      LowRunCountsUp(s, p);
    }
  }

  /** Unbroken open-eye frames drain the score by one each down to zero:
      from 0 it stays 0. */
  lemma {:induction false} HighRunDrains(s: nat, rs: seq<Reading>)
    requires AllHigh(rs)
    ensures ScoreAfter(s, rs) == if s >= |rs| then s - |rs| else 0
    decreases |rs|
  {
    if rs != [] {
      var p := rs[..|rs| - 1];
      assert AllHigh(p) by {
        forall i | 0 <= i < |p| ensures p[i].Face? && p[i].ear >= EarThreshold {
          assert p[i] == rs[i];
        }
      }
      HighRunDrains(s, p);
    }
  }

  /** One more frame: the score takes one step and the frame's records go
      after the earlier ones. */
  lemma Snoc(s: nat, rs: seq<Reading>, r: Reading)
    ensures ScoreAfter(s, rs + [r]) == StepScore(ScoreAfter(s, rs), r)
    ensures Records(s, rs + [r]) == Records(s, rs) + FrameRecords(ScoreAfter(s, rs), r)
  {
    assert (rs + [r])[..|rs|] == rs;
  }

  /** Frames without a face change neither the score nor the log: running
      only the frames with a face gives the same score and records. */
  lemma {:induction false} NoFaceIgnored(s: nat, rs: seq<Reading>)
    ensures ScoreAfter(s, Faces(rs)) == ScoreAfter(s, rs)
    ensures Records(s, Faces(rs)) == Records(s, rs)
    decreases |rs|
  {
    if rs != [] {
      var p, last := rs[..|rs| - 1], rs[|rs| - 1];
      NoFaceIgnored(s, p);
      if last.Face? {
        var fs := Faces(p) + [last];
        assert fs[..|fs| - 1] == Faces(p);
      } else {
        assert Faces(rs) == Faces(p);
        assert ScoreAfter(s, rs) == ScoreAfter(s, p);
        assert Records(s, rs) == Records(s, p);
      }
    }
  }

  /** Each open-eye frame can take at most one away and each closed-eye
      frame adds exactly one. */
  lemma {:induction false} ScoreBounds(s: nat, rs: seq<Reading>)
    ensures s - HighCount(rs) <= ScoreAfter(s, rs) <= s + LowCount(rs)
    decreases |rs|
  {
    if rs != [] {
      ScoreBounds(s, rs[..|rs| - 1]);
    }
  }

  /** Starting from a fresh session, an alert needs more than ScoreThreshold
      closed-eye frames. */
  lemma AlertNeedsSustainedClosure(rs: seq<Reading>)
    requires ShouldAlert(ScoreAfter(0, rs))
    ensures LowCount(rs) > ScoreThreshold
  {
    ScoreBounds(0, rs);
  }

  lemma NetOfSuffix(p: seq<Reading>, x: Reading, k: nat)
    requires k <= |p|
    ensures Net((p + [x])[k..]) == Net(p[k..]) + Delta(x)
  {
    var t := (p + [x])[k..];
    assert t[..|t| - 1] == p[k..];
  }

  /** The leaky bucket in closed form (Lindley's recursion): the score is
      the largest of s + Net(rs) and the unfloored sums of every suffix of
      rs, the empty one included. */
  lemma {:induction false} ScoreIsLargestSuffixSum(s: nat, rs: seq<Reading>)
    ensures ScoreAfter(s, rs) >= s + Net(rs)
    ensures forall k :: 0 <= k <= |rs| ==> ScoreAfter(s, rs) >= Net(rs[k..])
    ensures ScoreAfter(s, rs) == s + Net(rs) ||
            exists k :: 0 <= k <= |rs| && ScoreAfter(s, rs) == Net(rs[k..])
    decreases |rs|
  {
    if rs == [] {
      assert rs[0..] == [];
    } else {
      var p, x := rs[..|rs| - 1], rs[|rs| - 1];
      assert rs == p + [x];
      ScoreIsLargestSuffixSum(s, p);
      var w := ScoreAfter(s, p);
      StepIsClamp(w, x);
      forall k | 0 <= k <= |rs| ensures ScoreAfter(s, rs) >= Net(rs[k..]) {
        if k < |rs| {
          NetOfSuffix(p, x, k);
        } else {
          assert rs[k..] == [];
        }
      }
      if w + Delta(x) < 0 {
        assert rs[|rs|..] == [];
        assert ScoreAfter(s, rs) == Net(rs[|rs|..]);
      } else if w != s + Net(p) {
        var k :| 0 <= k <= |p| && w == Net(p[k..]);
        NetOfSuffix(p, x, k);
        assert ScoreAfter(s, rs) == Net(rs[k..]);
      }
    }
  }

  /** One record per frame with a face, in arrival order: record i holds
      the time and rounded EAR of the i-th frame with a face. Each record's
      Alert is "Yes" exactly when its score is above the threshold; the last
      frame's record, if it had a face, holds the final score. */
  lemma {:induction false} RecordsFaithful(s: nat, rs: seq<Reading>)
    ensures |Records(s, rs)| == |Faces(rs)|
    ensures forall i :: 0 <= i < |Records(s, rs)| ==>
              (Records(s, rs)[i].alert == "Yes" <==> ShouldAlert(Records(s, rs)[i].score)) &&
              (Records(s, rs)[i].alert == "Yes" || Records(s, rs)[i].alert == "No")
    ensures rs != [] && rs[|rs| - 1].Face? ==>
              Records(s, rs)[|Records(s, rs)| - 1].score == ScoreAfter(s, rs)
    ensures forall i :: 0 <= i < |Faces(rs)| ==> Faces(rs)[i].Face?
    ensures forall i :: 0 <= i < |Records(s, rs)| ==>
              Records(s, rs)[i].time == Faces(rs)[i].time &&
              Records(s, rs)[i].ear == Round3(Faces(rs)[i].ear)
    decreases |rs|
  {
    if rs != [] {
      var p, last := rs[..|rs| - 1], rs[|rs| - 1];
      RecordsFaithful(s, p);
      var added := FrameRecords(ScoreAfter(s, p), last);
      assert Records(s, rs) == Records(s, p) + added;
      assert Faces(rs) == Faces(p) + (if last.Face? then [last] else []);
    }
  }

  /** The records complete in order: the alerts counted over a concatenation
      are those of both parts. */
  lemma {:induction false} AlertCountConcat(a: seq<Record>, b: seq<Record>)
    ensures AlertCount(a + b) == AlertCount(a) + AlertCount(b)
    decreases |b|
  {
    if b == [] {
      assert a + b == a;
    } else {
      var b' := b[..|b| - 1];
      assert (a + b)[..|a + b| - 1] == a + b';
      AlertCountConcat(a, b');
    }
  }

  /** A fresh session sees one open-eye frame (EAR 0.30) and then sixteen
      closed-eye frames (EAR 0.20): the logged scores run 0, 1, ..., 16 and
      only the last record, score 16, says "Yes". */
  lemma SixteenClosedFramesAlert(rs: seq<Reading>)
    requires |rs| == 17
    requires rs[0].Face? && rs[0].ear == 0.30
    requires forall i :: 1 <= i < 17 ==> rs[i].Face? && rs[i].ear == 0.20
    ensures |Records(0, rs)| == 17
    ensures forall i :: 0 <= i < 17 ==> Records(0, rs)[i].score == i
    ensures forall i :: 0 <= i < 17 ==> (Records(0, rs)[i].alert == "Yes" <==> i == 16)
  {
    var first, lows := rs[..1], rs[1..];
    assert rs == first + lows;
    Compose(0, first, lows);
    assert first[..0] == [];
    assert ScoreAfter(0, first) == 0;
    assert Records(0, first) == [Record(rs[0].time, Round3(0.30), 0, "No")];
    assert AllLow(lows) by {
      forall i | 0 <= i < |lows| ensures lows[i].Face? && lows[i].ear < EarThreshold {
        assert lows[i] == rs[i + 1];
      }
    }
    LowRunCountsUp(0, lows);
    RecordsFaithful(0, rs);
  }
}
