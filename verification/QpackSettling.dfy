/** Nothing is pinned for ever: from every reachable state the endpoints can still confirm and release everything. */
module QpackSettling {
  import opened Machine
  import opened QpackInstructions
  import opened QpackAccounting
  import opened QpackProtocol
  import opened QpackSafety

  // ---- Runs one after the other ----

  lemma {:induction false} RunsAppend(w: World, first: seq<Step>, second: seq<Step>)
    requires Runs(w, first) && Runs(Final(w, first), second)
    ensures Runs(w, first + second) && Final(w, first + second) == Final(Final(w, first), second)
    decreases |first|
  {
    if first == [] {
      assert [] + second == second;
    } else {
      RunsAppend(After(w, first[0]), first[1..], second);
      assert (first + second)[1..] == first[1..] + second;
    }
  }

  /** One more step in front of a run. */
  lemma RunsCons(w: World, step: Step, rest: seq<Step>)
    requires Enabled(w, step) && Runs(After(w, step), rest)
    ensures Runs(w, [step] + rest) && Final(w, [step] + rest) == Final(After(w, step), rest)
  {
    assert ([step] + rest)[1..] == rest;
  }

  /** Steps in which the encoder sends and inserts nothing. */
  predicate Quiet(steps: seq<Step>) { forall step :: step in steps ==> !step.ChangeTable? && !step.Send? }

  // ---- Each queue can be emptied ----

  /** Every table change can be delivered. */
  lemma {:induction false} DeliverAll(w: World) returns (steps: seq<Step>)
    requires Inv(w)
    ensures Runs(w, steps) && Quiet(steps)
    ensures var end := Final(w, steps);
            Inv(end) && end.changes == [] && end.encoderTable == w.encoderTable
    decreases |w.changes|
  {
    hide Inv;
    steps := [];
    if w.changes != [] {
      InvIsSafe(w);
      StepKeepsInv(w, DeliverChange);
      var rest := DeliverAll(After(w, DeliverChange));
      RunsCons(w, DeliverChange, rest);
      steps := [DeliverChange] + rest;
    }
  }

  /** A section that is not cancelled can be decoded once every table change is delivered. */
  lemma Decodable(w: World, s: Section)
    requires Inv(w) && w.changes == [] && Undecoded(w, s)
    ensures Enabled(w, Decode(s.stream))
  {
    var p := Position(w.transit, s.stream);
    OfPosition(w.transit, s.stream);
    assert s in Of(w.transit, s.stream);
    var first := w.transit[p];
    assert first in Of(w.transit, s.stream);
    UndecodedIsOutstanding(w, first);
    assert WellFormed(first);
    assert Largest(first.references) in first.references;
  }

  lemma {:induction false} DecodeAll(w: World) returns (steps: seq<Step>)
    requires Inv(w) && w.changes == []
    ensures Runs(w, steps) && Quiet(steps)
    ensures var end := Final(w, steps);
            && Inv(end) && end.changes == [] && end.encoderTable == w.encoderTable
            && forall s :: s in end.transit ==> s.stream in end.cancelled
    decreases |w.transit|
  {
    hide Inv;
    steps := [];
    if s :| s in w.transit && s.stream !in w.cancelled {
      Decodable(w, s);
      var step := Decode(s.stream);
      StepKeepsInv(w, step);
      var rest := DecodeAll(After(w, step));
      RunsCons(w, step, rest);
      steps := [step] + rest;
    }
  }

  /** Only sections of cancelled streams are still to come. */
  predicate OnlyCancelled(w: World) {
    w.changes == [] && forall s :: s in w.transit ==> s.stream in w.cancelled
  }

  /** What the encoder will still account for once it has heard everything. */
  function Owed(w: World): (sections: seq<Section>)
    requires Inv(w)
  {
    Drained(w.accounting, w.feedback, w.encoderTable.insertCount).sections
  }

  lemma {:induction false} WithoutShorter(sections: seq<Section>, s: Section)
    requires s in sections
    ensures |Without(sections, s.stream)| < |sections|
  {
    if sections[0] == s {
      WithoutNoLonger(sections[1..], s.stream);
    } else {
      WithoutShorter(sections[1..], s);
    }
  }

  lemma {:induction false} WithoutNoLonger(sections: seq<Section>, stream: u64)
    ensures |Without(sections, stream)| <= |sections|
  {
    if sections != [] {
      WithoutNoLonger(sections[1..], stream);
    }
  }

  /** Cancelling a stream once more takes away what was sent on it since. */
  lemma CancelReleases(w: World, stream: u64)
    requires Inv(w) && Enabled(w, Cancel(stream))
    ensures var after := After(w, Cancel(stream));
            Inv(after) && Owed(after) == Without(Owed(w), stream)
  {
    CancelKeepsInv(w, stream);
    var after := After(w, Cancel(stream));
    AgreesSnoc(w.accounting, w.feedback, after.feedback[|w.feedback|], w.encoderTable.insertCount);
  }

  /** What is owed for when only sections of cancelled streams are to come was sent on those streams. */
  lemma OwedIsCancelled(w: World, s: Section)
    requires Inv(w) && OnlyCancelled(w) && s in Owed(w)
    ensures Enabled(w, Cancel(s.stream))
  {
    DrainedShrinks(w.accounting, w.feedback, w.encoderTable.insertCount);
  }

  lemma {:induction false} CancelAll(w: World) returns (steps: seq<Step>)
    requires Inv(w) && OnlyCancelled(w)
    ensures Runs(w, steps) && Quiet(steps)
    ensures var end := Final(w, steps);
            && Inv(end) && OnlyCancelled(end) && end.encoderTable == w.encoderTable && Owed(end) == []
    decreases |Owed(w)|
  {
    hide Inv;
    hide Owed;
    steps := [];
    if Owed(w) != [] {
      var s := Owed(w)[0];
      OwedIsCancelled(w, s);
      WithoutShorter(Owed(w), s);
      CancelReleases(w, s.stream);
      var step := Cancel(s.stream);
      var rest := CancelAll(After(w, step));
      RunsCons(w, step, rest);
      steps := [step] + rest;
    }
  }

  /** Reporting inserts releases nothing, and takes the decoder's count towards its insert count. */
  lemma ReportProgress(w: World)
    requires Inv(w) && Enabled(w, Report)
    ensures var after := After(w, Report);
            && Inv(after) && Owed(after) == Owed(w)
            && w.decoderKnown < after.decoderKnown <= after.decoderTable.insertCount
  {
    ReportKeepsInv(w);
    var after := After(w, Report);
    AgreesSnoc(w.accounting, w.feedback, after.feedback[|w.feedback|], w.encoderTable.insertCount);
  }

  lemma {:induction false} ReportAll(w: World) returns (steps: seq<Step>)
    requires Inv(w) && w.changes == [] && Owed(w) == []
    ensures Runs(w, steps) && Quiet(steps)
    ensures var end := Final(w, steps);
            && Inv(end) && end.changes == [] && end.encoderTable == w.encoderTable && Owed(end) == []
            && end.decoderKnown == end.decoderTable.insertCount
    decreases w.decoderTable.insertCount - w.decoderKnown
  {
    steps := [];
    if w.decoderKnown < w.decoderTable.insertCount {
      ReportProgress(w);
      var rest := ReportAll(After(w, Report));
      RunsCons(w, Report, rest);
      steps := [Report] + rest;
    }
  }

  /** Hearing everything leaves the encoder with what was owed, at the decoder's count. */
  lemma HearAll(w: World)
    requires Inv(w)
    ensures var after := After(w, Feed(|w.feedback|));
            && Inv(after) && after.feedback == []
            && after.accounting.sections == Owed(w) && after.accounting.known == w.decoderKnown
  {
    var n := w.encoderTable.insertCount;
    FeedKeepsInv(w, |w.feedback|);
    FeedParses(w, |w.feedback|);
    AgreesFeed(w.accounting, w.feedback, n, |w.feedback|);
    assert w.feedback[..|w.feedback|] == w.feedback;
  }

  // ---- The main result ----

  /** Nothing is outstanding, nothing is on its way, and every entry that was inserted may be evicted. */
  ghost predicate Settled(w: World) {
    && !w.rejected && w.accounting.sections == [] && w.changes == [] && w.feedback == []
    && w.decoderTable == w.encoderTable && w.accounting.known == w.encoderTable.insertCount
    && forall i: u64 :: i < w.encoderTable.insertCount ==> Evictable(w.accounting, i)
  }

  lemma InvCanSettle(w: World) returns (steps: seq<Step>)
    requires Inv(w)
    ensures Runs(w, steps) && Quiet(steps) && Settled(Final(w, steps))
    ensures Final(w, steps).encoderTable == w.encoderTable
  {
    hide Inv;
    hide Owed;
    hide After;
    var delivered := DeliverAll(w);
    var w1 := Final(w, delivered);
    var decoded := DecodeAll(w1);
    var w2 := Final(w1, decoded);
    var cancelled := CancelAll(w2);
    var w3 := Final(w2, cancelled);
    var reported := ReportAll(w3);
    var w4 := Final(w3, reported);
    HearAll(w4);
    HeardIsSettled(w4);
    var heard := [Feed(|w4.feedback|)];
    RunsCons(w4, heard[0], []);
    assert heard == [heard[0]] + [];
    RunsAppend(w3, reported, heard);
    RunsAppend(w2, cancelled, reported + heard);
    RunsAppend(w1, decoded, cancelled + (reported + heard));
    steps := delivered + (decoded + (cancelled + (reported + heard)));
    RunsAppend(w, delivered, decoded + (cancelled + (reported + heard)));
  }

  lemma HeardIsSettled(w: World)
    requires Inv(w) && w.changes == [] && Owed(w) == [] && w.decoderKnown == w.decoderTable.insertCount
    ensures Settled(After(w, Feed(|w.feedback|)))
    ensures After(w, Feed(|w.feedback|)).encoderTable == w.encoderTable
  {
    HearAll(w);
    hide ParseSequence;
    hide Printed;
  }

  /**
   * Whatever the two endpoints did, they can go on, with the encoder sending and inserting nothing, until nothing is
   * outstanding, the tables are the same and every entry may be evicted.
   */
  lemma RunCanSettle(w: World, steps: seq<Step>) returns (more: seq<Step>)
    requires Initial(w) && Runs(w, steps)
    ensures Runs(w, steps + more) && Settled(Final(w, steps + more))
    ensures Quiet(more) && Final(w, steps + more).encoderTable == Final(w, steps).encoderTable
  {
    InitialInv(w);
    RunKeepsInv(w, steps);
    more := InvCanSettle(Final(w, steps));
    RunsAppend(w, steps, more);
  }
}
