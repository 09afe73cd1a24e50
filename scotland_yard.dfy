/**
 * The value types the game-state factory reads: pieces, tickets, players,
 * the travel log entry and the game setup. Only the parts the factory
 * consults are modelled.
 */
module ScotlandYard {

  import opened Wrappers

  /** The colours of the detective pieces. */
  datatype Colour = Red | Green | Blue | White | Yellow

  /** A piece is either Mr X or a detective of some colour. */
  datatype Piece = MrX | Detective(colour: Colour) {
    predicate IsDetective() { Detective? }
    predicate IsMrX() { MrX? }
  }

  datatype Ticket = Taxi | Bus | Underground | Double | Secret

  /** A player: its piece, its current location on the map, and its ticket counts. */
  datatype Player = Player(piece: Piece, location: int, tickets: map<Ticket, nat>) {
    predicate IsDetective() { piece.IsDetective() }
    predicate IsMrX() { piece.IsMrX() }

    /** The number of tickets of kind `t` held; a kind missing from the map counts as none. */
    function Count(t: Ticket): nat { if t in tickets then tickets[t] else 0 }

    /** Whether the player holds at least one ticket of kind `t`. */
    predicate Has(t: Ticket) { Count(t) >= 1 }
  }

  /** One move of Mr X as recorded in the travel log; the location is absent when not revealed. */
  datatype LogEntry = LogEntry(ticket: Ticket, location: Option<int>)

  /** The game setup; only the round schedule (true = Mr X is revealed that round) is modelled. */
  datatype GameSetup = GameSetup(rounds: seq<bool>)
}
