/**
 * The console variant of the BART client: every 15 seconds it queries the
 * BART API, and its handler prints what it finds for the destination, or
 * that no departure goes there.
 */
module BartPoller {
  import opened Options
  import opened Departures

  /**
   * What one reply leads to: the program halts on an error message, or it
   * prints one note per matching departure, then "not found" when there was
   * none, then that it will check again.
   */
  datatype PollOutcome = Halted | Checked(notes: seq<Note>, notFound: bool)

  /** The 'end' handler of the console client. */
  method HandleBartResponse(reply: BartReply, destination: string) returns (outcome: PollOutcome)
    ensures outcome.Halted? <==> reply.error.Some?
    ensures outcome.Checked? ==>
              (outcome.notFound <==> reply.station.etd.None? || !AnyMatch(reply.station.etd.value, destination))
    ensures outcome.Checked? ==> (outcome.notFound <==> outcome.notes == [])
    ensures outcome.Checked? && reply.station.etd.Some? ==>
              outcome.notes == MatchNotes(reply.station.etd.value, destination)
  {
    if reply.error.Some? {
      return Halted;
    }
    var found := false;
    var notes: seq<Note> := [];
    if reply.station.etd.Some? {
      var min;
      found, min, notes := ScanDepartures(reply.station.etd.value, destination);
      LastMatchFoundIff(reply.station.etd.value, destination);
      NotesFollowLastMatch(reply.station.etd.value, destination);
    }
    outcome := Checked(notes, !found);
  }
}
