/**
 * The departure scan shared by the two BART clients: the parsed estimated
 * departures (etd) of the origin station are searched, case-insensitively,
 * for the configured destination, and the first estimate's minutes of a
 * matching departure are taken.  The loop never stops early, so when several
 * departures match it is the LAST one that decides the result.
 */
module Departures {
  import opened Options

  /** The first estimate's `minutes` field: the text "Leaving" or a count. */
  datatype Minutes = Leaving | Mins(n: nat)

  /** One estimated departure: its destination abbreviation and first estimate. */
  datatype Etd = Etd(abbreviation: string, minutes: Minutes)

  /** The first station of the reply, with or without an `etd` property. */
  datatype Station = Station(etd: Option<seq<Etd>>)

  /** The parsed reply: the `root.message.error` text if present, and the station. */
  datatype BartReply = BartReply(error: Option<string>, station: Station)

  // ---------------------------------------------------------------------
  // Case-insensitive comparison
  // ---------------------------------------------------------------------

  /** Upper-casing of one character, on the ASCII letters. */
  function UpperChar(c: char): (u: char)
    ensures 'a' <= c <= 'z' ==> u as int == c as int - 32
    ensures !('a' <= c <= 'z') ==> u == c
    ensures !('a' <= u <= 'z')
  {
    if 'a' <= c <= 'z' then (c as int - 32) as char else c
  }

  /** `toUpperCase()`, restricted to ASCII. */
  function ToUpper(s: string): (r: string)
    ensures |r| == |s|
    ensures forall i :: 0 <= i < |s| ==> r[i] == UpperChar(s[i])
  {
    if s == [] then [] else [UpperChar(s[0])] + ToUpper(s[1..])
  }

  /** Upper-casing twice is upper-casing once. */
  lemma ToUpperIdempotent(s: string)
    ensures ToUpper(ToUpper(s)) == ToUpper(s)
  {
    var u := ToUpper(s);
    assert forall i :: 0 <= i < |u| ==> ToUpper(u)[i] == u[i];
  }

  /** The test the loop applies to each departure. */
  predicate Matches(e: Etd, destination: string)
  {
    ToUpper(e.abbreviation) == ToUpper(destination)
  }

  /** Two strings that differ at most in the case of their ASCII letters. */
  predicate SameIgnoringCase(a: string, b: string)
  {
    |a| == |b| && forall i :: 0 <= i < |a| ==> UpperChar(a[i]) == UpperChar(b[i])
  }

  /** A departure matches exactly when the two names agree up to case. */
  lemma MatchesIffSameIgnoringCase(e: Etd, destination: string)
    ensures Matches(e, destination) <==> SameIgnoringCase(e.abbreviation, destination)
  {
    if SameIgnoringCase(e.abbreviation, destination) {
      assert ToUpper(e.abbreviation) == ToUpper(destination);
    }
    if Matches(e, destination) {
      forall i | 0 <= i < |e.abbreviation|
        ensures UpperChar(e.abbreviation[i]) == UpperChar(destination[i])
      {
        assert ToUpper(e.abbreviation)[i] == ToUpper(destination)[i];
      }
    }
  }

  /** The case in which the destination was typed does not matter. */
  lemma MatchIgnoresDestinationCase(e: Etd, destination: string)
    ensures Matches(e, destination) <==> Matches(e, ToUpper(destination))
  {
    ToUpperIdempotent(destination);
  }

  // ---------------------------------------------------------------------
  // What the scan finds
  // ---------------------------------------------------------------------

  /** Whether some departure goes to the destination. */
  predicate AnyMatch(etds: seq<Etd>, destination: string)
  {
    exists i :: 0 <= i < |etds| && Matches(etds[i], destination)
  }

  /** The minutes of the last matching departure, if any matches. */
  function LastMatch(etds: seq<Etd>, destination: string): (r: Option<Minutes>)
  {
    if etds == [] then None
    else if Matches(etds[|etds| - 1], destination) then Some(etds[|etds| - 1].minutes)
    else LastMatch(etds[..|etds| - 1], destination)
  }

  /** A departure is found exactly when one matches. */
  lemma {:induction false} LastMatchFoundIff(etds: seq<Etd>, destination: string)
    ensures LastMatch(etds, destination).Some? <==> AnyMatch(etds, destination)
    decreases |etds|
  {
    if etds != [] && !Matches(etds[|etds| - 1], destination) {
      var init := etds[..|etds| - 1];
      LastMatchFoundIff(init, destination);
      if AnyMatch(etds, destination) {
        var i :| 0 <= i < |etds| && Matches(etds[i], destination);
        assert init[i] == etds[i];
      }
      if AnyMatch(init, destination) {
        var i :| 0 <= i < |init| && Matches(init[i], destination);
        assert etds[i] == init[i];
      }
    }
  }

  /** What is found comes from a matching departure that no later one overrides. */
  lemma {:induction false} LastMatchIsLast(etds: seq<Etd>, destination: string)
    requires LastMatch(etds, destination).Some?
    ensures exists i :: 0 <= i < |etds| && Matches(etds[i], destination)
              && etds[i].minutes == LastMatch(etds, destination).value
              && forall j :: i < j < |etds| ==> !Matches(etds[j], destination)
    decreases |etds|
  {
    var last := |etds| - 1;
    if Matches(etds[last], destination) {
      assert Matches(etds[last], destination) && etds[last].minutes == LastMatch(etds, destination).value;
    } else {
      var init := etds[..last];
      LastMatchIsLast(init, destination);
      var i :| 0 <= i < |init| && Matches(init[i], destination)
               && init[i].minutes == LastMatch(init, destination).value
               && forall j :: i < j < |init| ==> !Matches(init[j], destination);
      assert etds[i] == init[i];
      assert forall j :: i < j < |etds| ==> !Matches(etds[j], destination) by {
        forall j | i < j < |etds| ensures !Matches(etds[j], destination) {
          if j < last {
            assert etds[j] == init[j];
          }
        }
      }
    }
  }

  /** Two departures to the same place: the later one wins, not the first. */
  lemma LaterMatchWins()
    ensures LastMatch([Etd("ANTC", Mins(3)), Etd("PITT", Mins(7)), Etd("antc", Mins(18))], "Antc")
         == Some(Mins(18))
  {
    var etds := [Etd("ANTC", Mins(3)), Etd("PITT", Mins(7)), Etd("antc", Mins(18))];
    assert ToUpper("antc") == "ANTC";
    assert ToUpper("Antc") == "ANTC";
    assert etds[..2][..1] == [Etd("ANTC", Mins(3))];
  }

  // ---------------------------------------------------------------------
  // Console advice
  // ---------------------------------------------------------------------

  /** The four advisory lines, one per `if` in the code. */
  datatype Band = AtLeast15 | AtLeast10 | AtLeast5 | LessThan5

  /** The advisories the four independent `if` statements print, in order. */
  function Bands(n: nat): (r: seq<Band>)
  {
    (if n >= 15 then [AtLeast15] else [])
    + (if 10 <= n < 15 then [AtLeast10] else [])
    + (if 5 <= n < 10 then [AtLeast5] else [])
    + (if n < 5 then [LessThan5] else [])
  }

  /** Exactly one of the four advisories is printed, and each covers its range. */
  lemma ExactlyOneBand(n: nat)
    ensures |Bands(n)| == 1
    ensures Bands(n)[0] == AtLeast15 <==> n >= 15
    ensures Bands(n)[0] == AtLeast10 <==> 10 <= n < 15
    ensures Bands(n)[0] == AtLeast5 <==> 5 <= n < 10
    ensures Bands(n)[0] == LessThan5 <==> n < 5
  {
  }

  /** What the console shows for one matching departure. */
  datatype Note = TrainLeaving | LeavesIn(minutes: nat, bands: seq<Band>)

  /** "Leaving" is reported on its own; a count gets the advisories. */
  function NoteFor(m: Minutes): (r: Note)
    ensures r.TrainLeaving? <==> m.Leaving?
    ensures r.LeavesIn? ==> r.minutes == m.n && |r.bands| == 1
  {
    ExactlyOneBand(if m.Mins? then m.n else 0);
    match m
    case Leaving => TrainLeaving
    case Mins(n) => LeavesIn(n, Bands(n))
  }

  /** The notes printed during the scan: one per matching departure, in order. */
  function MatchNotes(etds: seq<Etd>, destination: string): (r: seq<Note>)
  {
    if etds == [] then []
    else MatchNotes(etds[..|etds| - 1], destination)
         + (if Matches(etds[|etds| - 1], destination) then [NoteFor(etds[|etds| - 1].minutes)] else [])
  }

  /** Notes are printed exactly when a departure is found, and the last one describes it. */
  lemma {:induction false} NotesFollowLastMatch(etds: seq<Etd>, destination: string)
    ensures MatchNotes(etds, destination) == [] <==> LastMatch(etds, destination).None?
    ensures LastMatch(etds, destination).Some? ==>
              MatchNotes(etds, destination)[|MatchNotes(etds, destination)| - 1]
              == NoteFor(LastMatch(etds, destination).value)
    decreases |etds|
  {
    if etds != [] {
      NotesFollowLastMatch(etds[..|etds| - 1], destination);
    }
  }

  // ---------------------------------------------------------------------
  // The loop
  // ---------------------------------------------------------------------

  /**
   * The `for` loop over the departures: `found` and `min` are updated at
   * every match, and each match prints a note.  `min` starts at 0.
   */
  method ScanDepartures(etds: seq<Etd>, destination: string)
      returns (found: bool, min: Minutes, notes: seq<Note>)
    ensures found <==> AnyMatch(etds, destination)
    ensures found ==> Some(min) == LastMatch(etds, destination)
    ensures !found ==> min == Mins(0)
    ensures notes == MatchNotes(etds, destination)
  {
    found := false;
    min := Mins(0);
    notes := [];
    for j := 0 to |etds|
      invariant found == LastMatch(etds[..j], destination).Some?
      invariant found ==> Some(min) == LastMatch(etds[..j], destination)
      invariant !found ==> min == Mins(0)
      invariant notes == MatchNotes(etds[..j], destination)
    {
      assert etds[..j + 1][..j] == etds[..j];
      if ToUpper(etds[j].abbreviation) == ToUpper(destination) {
        found := true;
        min := etds[j].minutes;
        notes := notes + [NoteFor(min)];
      }
    }
    assert etds[..|etds|] == etds;
    LastMatchFoundIff(etds, destination);
  }
}
