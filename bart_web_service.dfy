/**
 * The web-service variant of the BART client: each HTTP request triggers a
 * query to the BART API, and when its reply has arrived the handler answers
 * the request with `{"Arrival":"<minutes>"}`, `{"Arrival":"Leaving"}` or
 * `{"Arrival":"-1"}` when no departure goes to the destination.
 */
module BartWebService {
  import opened Options
  import opened Departures

  // ---------------------------------------------------------------------
  // Minutes as text
  // ---------------------------------------------------------------------

  function DigitChar(d: nat): (c: char)
    requires d < 10
    ensures '0' <= c <= '9'
    ensures c as int - '0' as int == d
  {
    ('0' as int + d) as char
  }

  /** The decimal numeral of a count of minutes, as BART sends it. */
  function NatToString(n: nat): (s: string)
    ensures |s| >= 1
    ensures forall i :: 0 <= i < |s| ==> '0' <= s[i] <= '9'
  {
    if n < 10 then [DigitChar(n)] else NatToString(n / 10) + [DigitChar(n % 10)]
  }

  /** The value of a string of decimal digits. */
  function ParseDigits(s: string): nat
    requires forall i :: 0 <= i < |s| ==> '0' <= s[i] <= '9'
  {
    if s == [] then 0 else 10 * ParseDigits(s[..|s| - 1]) + (s[|s| - 1] as int - '0' as int)
  }

  /** Reading the numeral back gives the count. */
  lemma {:induction false} ParseNatToString(n: nat)
    ensures ParseDigits(NatToString(n)) == n
  {
    if n >= 10 {
      var s := NatToString(n);
      assert s[..|s| - 1] == NatToString(n / 10);
      ParseNatToString(n / 10);
    }
  }

  /** The text placed in the reply for a found departure. */
  function ArrivalText(m: Minutes): string
  {
    match m
    case Leaving => "Leaving"
    case Mins(n) => NatToString(n)
  }

  /** The text placed in the reply when nothing was found. */
  const NotFoundText := "-1"

  /** Different minutes give different texts, and none of them reads as "-1". */
  lemma ArrivalTextDistinct(a: Minutes, b: Minutes)
    ensures ArrivalText(a) == ArrivalText(b) <==> a == b
    ensures ArrivalText(a) != NotFoundText
  {
    if a.Mins? && b.Mins? && ArrivalText(a) == ArrivalText(b) {
      ParseNatToString(a.n);
      ParseNatToString(b.n);
    }
    if a.Mins? && b.Leaving? {
      assert ArrivalText(b)[0] == 'L';
    }
    if a.Leaving? && b.Mins? {
      assert ArrivalText(a)[0] == 'L';
    }
    if a.Mins? {
      assert NotFoundText[0] == '-';
    }
  }

  // ---------------------------------------------------------------------
  // The reply body
  // ---------------------------------------------------------------------

  const ReplyPrefix := "{\"Arrival\":\""
  const ReplySuffix := "\"}"

  /** The JSON text `{"Arrival":"<text>"}`. */
  function ArrivalReply(text: string): string
  {
    ReplyPrefix + text + ReplySuffix
  }

  /** A client's reading of a reply: the text of its Arrival field. */
  function ArrivalField(reply: string): Option<string>
  {
    if |reply| >= |ReplyPrefix| + |ReplySuffix|
       && reply[..|ReplyPrefix|] == ReplyPrefix
       && reply[|reply| - |ReplySuffix|..] == ReplySuffix
    then Some(reply[|ReplyPrefix|..|reply| - |ReplySuffix|])
    else None
  }

  /** The client reads back exactly the text that was sent. */
  lemma ArrivalFieldRoundTrip(text: string)
    ensures ArrivalField(ArrivalReply(text)) == Some(text)
  {
    var r := ArrivalReply(text);
    assert r[..|ReplyPrefix|] == ReplyPrefix;
    assert r[|r| - |ReplySuffix|..] == ReplySuffix;
    assert r[|ReplyPrefix|..|r| - |ReplySuffix|] == text;
  }

  /** The body the handler sends for a station's departures. */
  function ReplyBody(station: Station, destination: string): (body: string)
  {
    if station.etd.Some? && LastMatch(station.etd.value, destination).Some?
    then ArrivalReply(ArrivalText(LastMatch(station.etd.value, destination).value))
    else ArrivalReply(NotFoundText)
  }

  /** The reply says "-1" exactly when there is no etd list or no departure matches. */
  lemma NotFoundReplyIff(station: Station, destination: string)
    ensures ReplyBody(station, destination) == ArrivalReply(NotFoundText)
        <==> station.etd.None? || !AnyMatch(station.etd.value, destination)
  {
    if station.etd.Some? {
      var etds := station.etd.value;
      LastMatchFoundIff(etds, destination);
      if LastMatch(etds, destination).Some? {
        var m := LastMatch(etds, destination).value;
        ArrivalTextDistinct(m, m);
        ArrivalFieldRoundTrip(ArrivalText(m));
        ArrivalFieldRoundTrip(NotFoundText);
      }
    }
  }

  /** When a departure is found, the client reads its minutes from the reply. */
  lemma FoundReplyCarriesMinutes(etds: seq<Etd>, destination: string)
    requires AnyMatch(etds, destination)
    ensures LastMatch(etds, destination).Some?
    ensures ArrivalField(ReplyBody(Station(Some(etds)), destination))
         == Some(ArrivalText(LastMatch(etds, destination).value))
  {
    LastMatchFoundIff(etds, destination);
    ArrivalFieldRoundTrip(ArrivalText(LastMatch(etds, destination).value));
  }

  // ---------------------------------------------------------------------
  // The handler
  // ---------------------------------------------------------------------

  /** The HTTP response the handler answers through; `sent` lists the bodies sent. */
  class HttpResponse {
    var sent: seq<string>

    constructor ()
      ensures sent == []
    {
      sent := [];
    }

    method Send(body: string)
      modifies this
      ensures sent == old(sent) + [body]
    {
      sent := sent + [body];
    }
  }

  /**
   * The 'end' handler: an error message in the reply halts the program
   * before anything is sent; otherwise the departures are scanned and exactly
   * one body is sent, from the complementary `found` and `!found` branches.
   */
  method HandleBartResponse(httpResponse: HttpResponse, reply: BartReply, destination: string)
      returns (halted: bool, notes: seq<Note>)
    modifies httpResponse
    ensures halted <==> reply.error.Some?
    ensures halted ==> httpResponse.sent == old(httpResponse.sent) && notes == []
    ensures !halted ==> httpResponse.sent == old(httpResponse.sent) + [ReplyBody(reply.station, destination)]
    ensures !halted ==> notes == match reply.station.etd
                                 case None => []
                                 case Some(etds) => MatchNotes(etds, destination)
  {
    if reply.error.Some? {
      return true, [];
    }
    var found := false;
    var min := Mins(0);
    notes := [];
    if reply.station.etd.Some? {
      found, min, notes := ScanDepartures(reply.station.etd.value, destination);
      LastMatchFoundIff(reply.station.etd.value, destination);
    }
    if found {
      httpResponse.Send(ArrivalReply(ArrivalText(min)));
    }
    if !found {
      httpResponse.Send(ArrivalReply(NotFoundText));
    }
    halted := false;
  }
}
