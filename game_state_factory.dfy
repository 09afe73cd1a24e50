/**
 * The validating constructor of the game state and the `build` factory that
 * calls it (MyGameStateFactory.java).
 *
 * The constructor stores its five arguments and then rejects a roster that
 * is malformed, throwing a NullPointerException or an IllegalArgumentException.
 * Because a constructor that throws yields no object, and the stored fields
 * are never changed afterwards, the state is modelled as a value and the
 * constructor as a method that returns either that value or the error kind.
 */
module GameStateFactory {

  import opened Wrappers
  import opened ScotlandYard

  /** The two exception kinds the constructor throws. */
  datatype Error = NullPointer | IllegalArgument

  /** The fields the constructor assigns: the setup, the pieces still to move, Mr X's log, Mr X and the detectives. */
  datatype GameState = GameState(
    setup: GameSetup,
    remaining: set<Piece>,
    log: seq<LogEntry>,
    mrX: Player,
    detectives: seq<Player>)

  // ---------------------------------------------------------------------------
  // Specification
  // ---------------------------------------------------------------------------

  /** Some detective before position `i` has the same piece as detective `i`. */
  predicate PieceTakenBefore(ds: seq<Option<Player>>, i: int)
    requires 0 <= i < |ds| && ds[i].Some?
  {
    exists j :: 0 <= j < i && ds[j].Some? && ds[j].value.piece == ds[i].value.piece
  }

  /** Some detective before position `i` stands on the same location as detective `i`. */
  predicate LocationTakenBefore(ds: seq<Option<Player>>, i: int)
    requires 0 <= i < |ds| && ds[i].Some?
  {
    exists j :: 0 <= j < i && ds[j].Some? && ds[j].value.location == ds[i].value.location
  }

  /**
   * Detective `i` is rejected when it is examined: it is null, it is Mr X,
   * its piece or its location was already taken by an earlier detective, or
   * it holds a SECRET ticket.
   */
  predicate Faulty(ds: seq<Option<Player>>, i: int)
    requires 0 <= i < |ds|
  {
    || ds[i].None?
    || ds[i].value.IsMrX()
    || PieceTakenBefore(ds, i)
    || LocationTakenBefore(ds, i)
    || ds[i].value.Has(Secret)
  }

  /** `i` is the first rejected detective of the list. */
  predicate FirstFault(ds: seq<Option<Player>>, i: int)
  {
    0 <= i < |ds| && Faulty(ds, i) && forall j :: 0 <= j < i ==> !Faulty(ds, j)
  }

  /** The exception thrown for a rejected detective: null is a null-pointer error, anything else an illegal argument. */
  function FaultKind(d: Option<Player>): Error
  {
    if d.None? then NullPointer else IllegalArgument
  }

  /**
   * The detectives as a whole are acceptable: none is null, each is a
   * detective without a SECRET ticket, and no two share a piece or a location.
   */
  predicate WellFormedDetectives(ds: seq<Option<Player>>)
  {
    && (forall i :: 0 <= i < |ds| ==> ds[i].Some? && ds[i].value.IsDetective() && !ds[i].value.Has(Secret))
    && (forall i, j :: 0 <= i < j < |ds| && ds[i].Some? && ds[j].Some? ==>
          ds[i].value.piece != ds[j].value.piece && ds[i].value.location != ds[j].value.location)
  }

  /** The arguments the constructor accepts. */
  predicate ValidRoster(setup: Option<GameSetup>, mrX: Option<Player>, detectives: Option<seq<Option<Player>>>)
  {
    && mrX.Some? && mrX.value.IsMrX()
    && detectives.Some? && WellFormedDetectives(detectives.value)
    && setup.Some? && |setup.value.rounds| > 0
  }

  /** The detectives of a list none of whose entries is null. */
  function Values(ds: seq<Option<Player>>): seq<Player>
    requires forall i :: 0 <= i < |ds| ==> ds[i].Some?
  {
    seq(|ds|, i requires 0 <= i < |ds| => ds[i].value)
  }

  /**
   * What the constructor does, stated without its loop: the checks on Mr X and
   * the list, then the first rejected detective decides the error, and only
   * when no detective is rejected are the setup and its rounds consulted.
   */
  ghost function Expected(
    setup: Option<GameSetup>,
    remaining: set<Piece>,
    log: seq<LogEntry>,
    mrX: Option<Player>,
    detectives: Option<seq<Option<Player>>>): Result<GameState, Error>
  {
    if mrX.None? then Err(NullPointer)
    else if mrX.value.IsDetective() then Err(IllegalArgument)
    else if detectives.None? then Err(NullPointer)
    else if exists i :: FirstFault(detectives.value, i) then
      var i :| FirstFault(detectives.value, i);
      Err(FaultKind(detectives.value[i]))
    else if setup.None? then Err(NullPointer)
    else if |setup.value.rounds| == 0 then Err(IllegalArgument)
    else
      NoFirstFaultNoFault(detectives.value);
      Ok(GameState(setup.value, remaining, log, mrX.value, Values(detectives.value)))
  }

  // ---------------------------------------------------------------------------
  // Lemmas about the specification
  // ---------------------------------------------------------------------------

  /** A list with a rejected detective has a first rejected detective, at or before it. */
  lemma {:induction false} FaultHasFirst(ds: seq<Option<Player>>, i: int)
    requires 0 <= i < |ds| && Faulty(ds, i)
    ensures exists k :: 0 <= k <= i && FirstFault(ds, k)
    decreases i
  {
    if forall j :: 0 <= j < i ==> !Faulty(ds, j) {
      assert FirstFault(ds, i);
    } else {
      var j :| 0 <= j < i && Faulty(ds, j);
      FaultHasFirst(ds, j);
    }
  }

  /** Without a first rejected detective, no detective is rejected and none is null. */
  lemma NoFirstFaultNoFault(ds: seq<Option<Player>>)
    requires !exists i :: FirstFault(ds, i)
    ensures forall i :: 0 <= i < |ds| ==> !Faulty(ds, i) && ds[i].Some?
  {
    forall i | 0 <= i < |ds|
      ensures !Faulty(ds, i) && ds[i].Some?
    {
      if Faulty(ds, i) {
        FaultHasFirst(ds, i);
      }
    }
  }

  /**
   * Checking the detectives one by one against those before them accepts
   * exactly the lists whose detectives are pairwise distinct in piece and
   * location, all non-null, all detectives and none holding a SECRET ticket.
   */
  lemma NoFaultIffWellFormed(ds: seq<Option<Player>>)
    ensures (forall i :: 0 <= i < |ds| ==> !Faulty(ds, i)) <==> WellFormedDetectives(ds)
  {
    if forall i :: 0 <= i < |ds| ==> !Faulty(ds, i) {
      forall i | 0 <= i < |ds|
        ensures ds[i].Some? && ds[i].value.IsDetective() && !ds[i].value.Has(Secret)
      {
        assert !Faulty(ds, i);
      }
      forall i, j | 0 <= i < j < |ds| && ds[i].Some? && ds[j].Some?
        ensures ds[i].value.piece != ds[j].value.piece && ds[i].value.location != ds[j].value.location
      {
        assert !Faulty(ds, j);
      }
    }
    if WellFormedDetectives(ds) {
      forall i | 0 <= i < |ds|
        ensures !Faulty(ds, i)
      {
        assert !PieceTakenBefore(ds, i) && !LocationTakenBefore(ds, i);
      }
    }
  }

  /**
   * Construction succeeds if and only if the roster is valid, and then the
   * state holds exactly the arguments.
   */
  lemma ExpectedOkIffValid(
    setup: Option<GameSetup>,
    remaining: set<Piece>,
    log: seq<LogEntry>,
    mrX: Option<Player>,
    detectives: Option<seq<Option<Player>>>)
    ensures Expected(setup, remaining, log, mrX, detectives).Ok? <==> ValidRoster(setup, mrX, detectives)
    ensures ValidRoster(setup, mrX, detectives) ==>
      var ds := detectives.value;
      && |Expected(setup, remaining, log, mrX, detectives).value.detectives| == |ds|
      && (forall i :: 0 <= i < |ds| ==> Some(Expected(setup, remaining, log, mrX, detectives).value.detectives[i]) == ds[i])
      && Expected(setup, remaining, log, mrX, detectives).value.setup == setup.value
      && Expected(setup, remaining, log, mrX, detectives).value.mrX == mrX.value
      && Expected(setup, remaining, log, mrX, detectives).value.remaining == remaining
      && Expected(setup, remaining, log, mrX, detectives).value.log == log
  {
    if mrX.Some? && mrX.value.IsMrX() && detectives.Some? {
      var ds := detectives.value;
      NoFaultIffWellFormed(ds);
      if exists i :: FirstFault(ds, i) {
        var i :| FirstFault(ds, i);
      } else {
        NoFirstFaultNoFault(ds);
      }
    }
  }

  // ---------------------------------------------------------------------------
  // The constructor and the factory
  // ---------------------------------------------------------------------------

  /**
   * The constructor: checks Mr X and the list, walks the detectives in order
   * keeping the pieces and locations seen so far, and checks the rounds last.
   */
  method NewGameState(
    setup: Option<GameSetup>,
    remaining: set<Piece>,
    log: seq<LogEntry>,
    mrX: Option<Player>,
    detectives: Option<seq<Option<Player>>>)
    returns (r: Result<GameState, Error>)
    ensures r == Expected(setup, remaining, log, mrX, detectives)
  {
    if mrX.None? { return Err(NullPointer); }
    if mrX.value.IsDetective() { return Err(IllegalArgument); }
    if detectives.None? { return Err(NullPointer); }
    var ds := detectives.value;

    var coloursTaken: seq<Piece> := [];
    var locationsTaken: seq<int> := [];
    for k := 0 to |ds|
      invariant |coloursTaken| == |locationsTaken| == k
      invariant forall j :: 0 <= j < k ==> ds[j].Some? && !Faulty(ds, j)
      invariant forall j :: 0 <= j < k ==>
        coloursTaken[j] == ds[j].value.piece && locationsTaken[j] == ds[j].value.location
      invariant NoDuplicates(coloursTaken) && NoDuplicates(locationsTaken)
    {
      if ds[k].None? {
        RejectFirst(ds, k);
        return Err(NullPointer);
      }
      var detective := ds[k].value;
      if detective.IsMrX() {
        RejectFirst(ds, k);
        return Err(IllegalArgument);
      }
      if detective.piece in coloursTaken {
        ghost var j :| 0 <= j < k && coloursTaken[j] == detective.piece;
        RejectFirst(ds, k);
        return Err(IllegalArgument);
      }
      coloursTaken := coloursTaken + [detective.piece];
      if detective.location in locationsTaken {
        ghost var j :| 0 <= j < k && locationsTaken[j] == detective.location;
        RejectFirst(ds, k);
        return Err(IllegalArgument);
      }
      locationsTaken := locationsTaken + [detective.location];
      if detective.Has(Secret) {
        RejectFirst(ds, k);
        return Err(IllegalArgument);
      }
    }
    assert !exists i :: FirstFault(ds, i);
    if setup.None? { return Err(NullPointer); }
    if |setup.value.rounds| == 0 { return Err(IllegalArgument); }
    r := Ok(GameState(setup.value, remaining, log, mrX.value, Values(ds)));
  }

  /** No element of `s` occurs twice. */
  predicate NoDuplicates<T(==)>(s: seq<T>)
  {
    forall i, j :: 0 <= i < j < |s| ==> s[i] != s[j]
  }

  /** When detective `k` is rejected and all before it were accepted, the constructor's error is `k`'s. */
  lemma RejectFirst(ds: seq<Option<Player>>, k: int)
    requires 0 <= k < |ds| && Faulty(ds, k) && forall j :: 0 <= j < k ==> !Faulty(ds, j)
    ensures FirstFault(ds, k)
    ensures forall i :: FirstFault(ds, i) <==> i == k
  {
  }

  /** The detectives of a list whose entries cannot be null (an immutable list admits no null element). */
  function Wrap(detectives: Option<seq<Player>>): (r: Option<seq<Option<Player>>>)
    ensures r.None? <==> detectives.None?
    ensures r.Some? ==>
      && (forall i :: 0 <= i < |r.value| ==> r.value[i].Some?)
      && Values(r.value) == detectives.value
  {
    match detectives
    case None => None
    case Some(s) => Some(seq(|s|, i requires 0 <= i < |s| => Some(s[i])))
  }

  /**
   * The factory: builds the state in which Mr X moves first and the travel
   * log is empty, passing the setup, Mr X and the detectives through.
   */
  method Build(setup: Option<GameSetup>, mrX: Option<Player>, detectives: Option<seq<Player>>)
    returns (r: Result<GameState, Error>)
    ensures r == Expected(setup, {MrX}, [], mrX, Wrap(detectives))
    ensures r.Ok? <==> ValidRoster(setup, mrX, Wrap(detectives))
    ensures r.Ok? ==> r.value == GameState(setup.value, {MrX}, [], mrX.value, detectives.value)
    ensures r == Err(NullPointer) ==> mrX.None? || detectives.None? || setup.None?
  {
    r := NewGameState(setup, {MrX}, [], mrX, Wrap(detectives));
    ExpectedOkIffValid(setup, {MrX}, [], mrX, Wrap(detectives));
    if r.Ok? {
      assert r.value.detectives == detectives.value;
    }
    if mrX.Some? && detectives.Some? {
      var ds := Wrap(detectives).value;
      forall i | FirstFault(ds, i)
        ensures FaultKind(ds[i]) == IllegalArgument
      {
      }
    }
  }
}
