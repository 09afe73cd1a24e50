# Scotland Yard game-state factory

A model of the game-state factory of the Scotland Yard coursework model
(`MyGameStateFactory.java`). The factory's `build` creates the initial game
state, in which only Mr X is still to move this round and his travel log is
empty. The state's private constructor stores its arguments (the game setup,
the pieces still to move, the log, Mr X and the list of detectives) and
validates the roster. The checks run in this order: Mr X, Mr X's tag, the
list, each detective in list order, then the setup and its rounds. The first
check that fails decides the exception. A `NullPointerException` is thrown
when Mr X, the detective list, one of its detectives or the setup is null
and no earlier check has failed. An `IllegalArgumentException` is thrown,
again only when no earlier check has failed, in these cases:

- Mr X is tagged as a detective.
- A detective is tagged as Mr X.
- Two detectives have the same piece (colour).
- Two detectives stand on the same location.
- A detective holds a SECRET ticket.
- The round schedule is empty.

The detectives are walked in list order. Their pieces and locations are
collected in two growing lists. The round schedule is examined only after
every detective has passed.

Files:

- `wrappers.dfy`: `Option` (a reference that may be null) and `Result` (a return or a thrown exception).
- `scotland_yard.dfy`: pieces, tickets, players, log entries and the setup, as far as the factory reads them.
- `game_state_factory.dfy`: the specification `Expected` and the predicate `ValidRoster`, the constructor `NewGameState` with its loop, and `Build`.
- `factory_properties.dfy`: one lemma per check of the constructor.

The constructor is a method whose loop keeps `coloursTaken` and
`locationsTaken` as sequences. The loop invariants say that after `k`
detectives these hold exactly the first `k` detectives' pieces and
locations, in order and without duplicates. The method is proved to return
`Expected(...)`. This ghost function states the outcome without a loop: it
returns the error of the first rejected detective, and looks at the setup
only when no detective is rejected. `ExpectedOkIffValid` proves that
construction succeeds exactly when the roster satisfies the global
predicate `ValidRoster`.

## Model

| member | source | states |
|---|---|---|
| `GameStateFactory.NewGameState` | ScotlandYardProj/cw-model/src/main/java/uk/ac/bris/cs/scotlandyard/model/MyGameStateFactory.java:33-68 | the constructor's result is exactly `Expected`: the Mr X and list checks, then the first rejected detective's error (null pointer for a null detective, illegal argument otherwise), then the setup and rounds checks, else the state holding the arguments |
| `GameStateFactory.Build` | ScotlandYardProj/cw-model/src/main/java/uk/ac/bris/cs/scotlandyard/model/MyGameStateFactory.java:81-83 | `build` succeeds iff the roster is valid. On success `remaining` is {Mr X}, the log is empty, and setup, Mr X and detectives are the arguments. A null-pointer error comes only from a null Mr X, list or setup, because an immutable list holds no null detective |
| `GameStateFactory.ExpectedOkIffValid` | ScotlandYardProj/cw-model/src/main/java/uk/ac/bris/cs/scotlandyard/model/MyGameStateFactory.java:41-67 | construction succeeds if and only if `ValidRoster` holds, and the state then stores exactly the setup, remaining set, log, Mr X and detectives given |
| `GameStateFactory.NoFaultIffWellFormed` | ScotlandYardProj/cw-model/src/main/java/uk/ac/bris/cs/scotlandyard/model/MyGameStateFactory.java:52-66 | checking each detective against the earlier ones' pieces and locations accepts exactly the lists whose detectives are non-null, detective-tagged, SECRET-free and pairwise distinct in piece and in location |
| `GameStateFactory.FaultHasFirst` | ScotlandYardProj/cw-model/src/main/java/uk/ac/bris/cs/scotlandyard/model/MyGameStateFactory.java:55-66 | if any detective is rejected, there is a first rejected one at or before it, and that one ends the loop |
| `FactoryProperties.MrXAndListChecks` | ScotlandYardProj/cw-model/src/main/java/uk/ac/bris/cs/scotlandyard/model/MyGameStateFactory.java:48-50 | a null Mr X gives a null-pointer error, a Mr X tagged as a detective an illegal-argument error, and a null list (with a valid Mr X) a null-pointer error |
| `FactoryProperties.RejectedDetectiveFails` | ScotlandYardProj/cw-model/src/main/java/uk/ac/bris/cs/scotlandyard/model/MyGameStateFactory.java:55-66 | any rejected detective makes construction fail. When Mr X is present and no detective is null, the error is an illegal argument |
| `FactoryProperties.NullDetectiveFails` | ScotlandYardProj/cw-model/src/main/java/uk/ac/bris/cs/scotlandyard/model/MyGameStateFactory.java:56 | a null detective makes construction fail. The error is a null pointer when Mr X is valid and no earlier detective was rejected |
| `FactoryProperties.DetectiveIsMrXFails` | ScotlandYardProj/cw-model/src/main/java/uk/ac/bris/cs/scotlandyard/model/MyGameStateFactory.java:57 | a detective tagged as Mr X makes construction fail (illegal argument when no detective is null) |
| `FactoryProperties.DuplicatePieceFails` | ScotlandYardProj/cw-model/src/main/java/uk/ac/bris/cs/scotlandyard/model/MyGameStateFactory.java:59-60 | two detectives with the same piece make construction fail (illegal argument when no detective is null) |
| `FactoryProperties.DuplicateLocationFails` | ScotlandYardProj/cw-model/src/main/java/uk/ac/bris/cs/scotlandyard/model/MyGameStateFactory.java:62-63 | two detectives on the same location make construction fail (illegal argument when no detective is null) |
| `FactoryProperties.SecretTicketFails` | ScotlandYardProj/cw-model/src/main/java/uk/ac/bris/cs/scotlandyard/model/MyGameStateFactory.java:65 | a detective holding at least one SECRET ticket makes construction fail (illegal argument when no detective is null) |
| `FactoryProperties.EmptyRoundsFails` | ScotlandYardProj/cw-model/src/main/java/uk/ac/bris/cs/scotlandyard/model/MyGameStateFactory.java:67 | an empty round schedule makes construction fail. With Mr X, the list and all detectives non-null, the error is an illegal argument |
| `FactoryProperties.DetectiveErrorPrecedesRounds` | ScotlandYardProj/cw-model/src/main/java/uk/ac/bris/cs/scotlandyard/model/MyGameStateFactory.java:55-67 | once a detective is rejected, the outcome does not depend on the setup: the rounds check runs only after the loop |
| `FactoryProperties.MrXLocationNotChecked` | ScotlandYardProj/cw-model/src/main/java/uk/ac/bris/cs/scotlandyard/model/MyGameStateFactory.java:62-63 | only detectives' locations are compared: moving Mr X of an accepted roster to any location, including a detective's, is still accepted |
| `FactoryProperties.DoubleTicketNotChecked` | ScotlandYardProj/cw-model/src/main/java/uk/ac/bris/cs/scotlandyard/model/MyGameStateFactory.java:65 | only SECRET tickets are checked: giving a detective of an accepted roster any number of DOUBLE tickets keeps the roster accepted |

## Left out

- The accessors `getSetup`, `getPlayers`, `getDetectiveLocation`, `getPlayerTickets`, `getMrXTravelLog`, `getWinner`, `getAvailableMoves` and `advance` (lines 70-77): each returns `null` in the source. There is no move generation, travel logging, turn order or win evaluation to model.
- The fields `everyone`, `moves` and `winner` are never assigned, so `GameState` leaves them out.
- The constructor assigns its fields (lines 41-45) before it validates. A constructor that throws yields no object, and the fields never change afterwards. So the state is modelled as an immutable value that exists only when validation passes.
- `Player.java`, `Piece.java`, `ScotlandYard.java` (tickets) and `GameSetup.java` are not part of this model. A player's `has(SECRET)` is taken to mean "holds at least one", with a kind missing from the ticket map counting as none. `isMrX` and `isDetective` are taken to be complementary.
- The graph of `GameSetup` is never read by the constructor. Only the round schedule is modelled. The constructor does not reject an empty graph, and neither does the model.
- The detectives' DOUBLE tickets are not checked by the source, and Mr X's location is not compared with the detectives'. The model follows the code here rather than the wider game rules.
- `remaining` and `log` are never checked for null. `build` passes non-null values, so the model takes them as plain values.
- Guava's immutable collections become `seq` and `set` values. The distinction between exception classes is reduced to the two kinds thrown.
