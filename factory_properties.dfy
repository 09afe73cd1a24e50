/**
 * What the constructor's checks guarantee, one property per check, stated
 * over the specification `Expected` (which the constructor is proved to meet).
 */
module FactoryProperties {

  import opened Wrappers
  import opened ScotlandYard
  import opened GameStateFactory

  /** A null Mr X, a Mr X who is a detective, or a null list is rejected before any detective is examined. */
  lemma MrXAndListChecks(
    setup: Option<GameSetup>, remaining: set<Piece>, log: seq<LogEntry>,
    mrX: Option<Player>, detectives: Option<seq<Option<Player>>>)
    ensures mrX.None? ==> Expected(setup, remaining, log, mrX, detectives) == Err(NullPointer)
    ensures mrX.Some? && mrX.value.IsDetective() ==>
      Expected(setup, remaining, log, mrX, detectives) == Err(IllegalArgument)
    ensures mrX.Some? && mrX.value.IsMrX() && detectives.None? ==>
      Expected(setup, remaining, log, mrX, detectives) == Err(NullPointer)
  {
  }

  /**
   * A rejected detective makes construction fail; when no detective in the
   * list is null and Mr X is present, the failure is an illegal argument.
   */
  lemma RejectedDetectiveFails(
    setup: Option<GameSetup>, remaining: set<Piece>, log: seq<LogEntry>,
    mrX: Option<Player>, ds: seq<Option<Player>>, i: int)
    requires 0 <= i < |ds| && Faulty(ds, i)
    ensures Expected(setup, remaining, log, mrX, Some(ds)).Err?
    ensures mrX.Some? && (forall j :: 0 <= j < |ds| ==> ds[j].Some?) ==>
      Expected(setup, remaining, log, mrX, Some(ds)) == Err(IllegalArgument)
  {
    FaultHasFirst(ds, i);
  }

  /** A null detective makes construction fail, with a null-pointer error when no earlier detective was rejected. */
  lemma NullDetectiveFails(
    setup: Option<GameSetup>, remaining: set<Piece>, log: seq<LogEntry>,
    mrX: Option<Player>, ds: seq<Option<Player>>, i: int)
    requires 0 <= i < |ds| && ds[i].None?
    ensures Expected(setup, remaining, log, mrX, Some(ds)).Err?
    ensures mrX.Some? && mrX.value.IsMrX() && (forall j :: 0 <= j < i ==> !Faulty(ds, j)) ==>
      Expected(setup, remaining, log, mrX, Some(ds)) == Err(NullPointer)
  {
    RejectedDetectiveFails(setup, remaining, log, mrX, ds, i);
    if forall j :: 0 <= j < i ==> !Faulty(ds, j) {
      RejectFirst(ds, i);
    }
  }

  /** A detective list containing Mr X is rejected. */
  lemma DetectiveIsMrXFails(
    setup: Option<GameSetup>, remaining: set<Piece>, log: seq<LogEntry>,
    mrX: Option<Player>, ds: seq<Option<Player>>, i: int)
    requires 0 <= i < |ds| && ds[i].Some? && ds[i].value.IsMrX()
    ensures Expected(setup, remaining, log, mrX, Some(ds)).Err?
    ensures mrX.Some? && (forall j :: 0 <= j < |ds| ==> ds[j].Some?) ==>
      Expected(setup, remaining, log, mrX, Some(ds)) == Err(IllegalArgument)
  {
    RejectedDetectiveFails(setup, remaining, log, mrX, ds, i);
  }

  /** Two detectives with the same piece (colour) are rejected. */
  lemma DuplicatePieceFails(
    setup: Option<GameSetup>, remaining: set<Piece>, log: seq<LogEntry>,
    mrX: Option<Player>, ds: seq<Option<Player>>, i: int, j: int)
    requires 0 <= i < j < |ds| && ds[i].Some? && ds[j].Some?
    requires ds[i].value.piece == ds[j].value.piece
    ensures Expected(setup, remaining, log, mrX, Some(ds)).Err?
    ensures mrX.Some? && (forall k :: 0 <= k < |ds| ==> ds[k].Some?) ==>
      Expected(setup, remaining, log, mrX, Some(ds)) == Err(IllegalArgument)
  {
    assert PieceTakenBefore(ds, j);
    RejectedDetectiveFails(setup, remaining, log, mrX, ds, j);
  }

  /** Two detectives on the same location are rejected. */
  lemma DuplicateLocationFails(
    setup: Option<GameSetup>, remaining: set<Piece>, log: seq<LogEntry>,
    mrX: Option<Player>, ds: seq<Option<Player>>, i: int, j: int)
    requires 0 <= i < j < |ds| && ds[i].Some? && ds[j].Some?
    requires ds[i].value.location == ds[j].value.location
    ensures Expected(setup, remaining, log, mrX, Some(ds)).Err?
    ensures mrX.Some? && (forall k :: 0 <= k < |ds| ==> ds[k].Some?) ==>
      Expected(setup, remaining, log, mrX, Some(ds)) == Err(IllegalArgument)
  {
    assert LocationTakenBefore(ds, j);
    RejectedDetectiveFails(setup, remaining, log, mrX, ds, j);
  }

  /** A detective holding a SECRET ticket is rejected. */
  lemma SecretTicketFails(
    setup: Option<GameSetup>, remaining: set<Piece>, log: seq<LogEntry>,
    mrX: Option<Player>, ds: seq<Option<Player>>, i: int)
    requires 0 <= i < |ds| && ds[i].Some? && ds[i].value.Has(Secret)
    ensures Expected(setup, remaining, log, mrX, Some(ds)).Err?
    ensures mrX.Some? && (forall j :: 0 <= j < |ds| ==> ds[j].Some?) ==>
      Expected(setup, remaining, log, mrX, Some(ds)) == Err(IllegalArgument)
  {
    RejectedDetectiveFails(setup, remaining, log, mrX, ds, i);
  }

  /**
   * An empty round schedule is rejected; with Mr X, the list and all its
   * detectives present, the failure is an illegal argument.
   */
  lemma EmptyRoundsFails(
    setup: Option<GameSetup>, remaining: set<Piece>, log: seq<LogEntry>,
    mrX: Option<Player>, detectives: Option<seq<Option<Player>>>)
    requires setup.Some? && setup.value.rounds == []
    ensures Expected(setup, remaining, log, mrX, detectives).Err?
    ensures mrX.Some? && detectives.Some? && (forall j :: 0 <= j < |detectives.value| ==> detectives.value[j].Some?) ==>
      Expected(setup, remaining, log, mrX, detectives) == Err(IllegalArgument)
  {
  }

  /**
   * The setup is consulted only after every detective has been accepted:
   * once a detective is rejected, the outcome is the same whatever the setup.
   */
  lemma DetectiveErrorPrecedesRounds(
    setup1: Option<GameSetup>, setup2: Option<GameSetup>, remaining: set<Piece>, log: seq<LogEntry>,
    mrX: Option<Player>, ds: seq<Option<Player>>, i: int)
    requires 0 <= i < |ds| && Faulty(ds, i)
    ensures Expected(setup1, remaining, log, mrX, Some(ds)) == Expected(setup2, remaining, log, mrX, Some(ds))
  {
    FaultHasFirst(ds, i);
  }

  /** Mr X's location is not compared with the detectives': moving Mr X anywhere keeps a valid roster valid. */
  lemma MrXLocationNotChecked(
    setup: Option<GameSetup>, remaining: set<Piece>, log: seq<LogEntry>,
    x: Player, detectives: Option<seq<Option<Player>>>, l: int)
    requires Expected(setup, remaining, log, Some(x), detectives).Ok?
    ensures Expected(setup, remaining, log, Some(x.(location := l)), detectives)
      == Ok(Expected(setup, remaining, log, Some(x), detectives).value.(mrX := x.(location := l)))
  {
  }

  /** DOUBLE tickets are not checked: giving a detective of an accepted roster DOUBLE tickets keeps it accepted. */
  lemma DoubleTicketNotChecked(
    setup: Option<GameSetup>, remaining: set<Piece>, log: seq<LogEntry>,
    mrX: Option<Player>, ds: seq<Option<Player>>, i: int, n: nat)
    requires 0 <= i < |ds| && ds[i].Some?
    requires Expected(setup, remaining, log, mrX, Some(ds)).Ok?
    ensures Expected(setup, remaining, log, mrX,
      Some(ds[i := Some(ds[i].value.(tickets := ds[i].value.tickets[Double := n]))])).Ok?
  {
    var p := ds[i].value;
    var ds' := ds[i := Some(p.(tickets := p.tickets[Double := n]))];
    ExpectedOkIffValid(setup, remaining, log, mrX, Some(ds));
    ExpectedOkIffValid(setup, remaining, log, mrX, Some(ds'));
    assert p.(tickets := p.tickets[Double := n]).Count(Secret) == p.Count(Secret);
  }
}
