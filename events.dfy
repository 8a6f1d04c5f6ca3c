/**
  The externally visible effects of one run of the bulk WhatsApp sender, as a
  trace of events in the order they happen. The browser-automation calls, the
  pacing sleep and the error dialogs of media.py all become events here.
 */
module Events {

  /** The errors the sender reports in a dialog box. The first four end the run;
      the last two concern one contact and the run goes on. */
  datatype ErrorKind =
    | MissingSpreadsheetPath   // no Excel file was chosen
    | MissingPayload           // neither a message nor a media file was given
    | UnreadableSpreadsheet    // reading the spreadsheet raised an error
    | MissingColumn            // the sheet has no 'WhatsApp' column
    | MediaNotFound            // the media file does not exist
    | UnsupportedMediaFormat   // the media file's extension is neither an image nor a document one

  datatype Event =
    | SendText(phone: string, body: string)                                    // instant text send
    | SendImage(phone: string, path: string, caption: string, waitSeconds: nat) // image send
    | SendDocument(phone: string, path: string, caption: string)               // document send
    | SendFailed(phone: string)       // the send just made raised; logged with the number
    | SkipInvalid(phone: string)      // the normalised number failed validation
    | Pause(seconds: nat)             // the blocking wait after each dispatch
    | Error(kind: ErrorKind)          // an error dialog
    | Completed                       // the final success dialog

  /** A call into the browser-automation collaborator. */
  predicate IsSend(e: Event) {
    e.SendText? || e.SendImage? || e.SendDocument?
  }

  predicate IsPause(e: Event) {
    e.Pause?
  }

  predicate IsSkip(e: Event) {
    e.SkipInvalid?
  }

  /** The number of events of a trace that satisfy p. */
  function Count(t: seq<Event>, p: Event -> bool): (n: nat)
    ensures n <= |t|
    ensures n == 0 <==> forall i :: 0 <= i < |t| ==> !p(t[i])
  {
    if t == [] then 0 else (if p(t[0]) then 1 else 0) + Count(t[1..], p)
  }

  lemma {:induction false} CountAppend(a: seq<Event>, b: seq<Event>, p: Event -> bool)
    ensures Count(a + b, p) == Count(a, p) + Count(b, p)
  {
    if a == [] {
      assert a + b == b;
    } else {
      assert (a + b)[1..] == a[1..] + b;
      CountAppend(a[1..], b, p);
    }
  }

  /** The phone numbers the collaborator was asked to send to, in call order. */
  function Recipients(t: seq<Event>): (r: seq<string>)
    ensures |r| == Count(t, IsSend)
  {
    if t == [] then []
    else (if IsSend(t[0]) then [t[0].phone] else []) + Recipients(t[1..])
  }

  lemma {:induction false} RecipientsAppend(a: seq<Event>, b: seq<Event>)
    ensures Recipients(a + b) == Recipients(a) + Recipients(b)
  {
    if a == [] {
      assert a + b == b;
    } else {
      assert (a + b)[1..] == a[1..] + b;
      RecipientsAppend(a[1..], b);
    }
  }

  /** PacedFrom(t, busy) holds when, starting with an automation session busy or
      not, no send in t starts while the previous send has not yet been followed
      by a pause. */
  predicate PacedFrom(t: seq<Event>, busy: bool) {
    if t == [] then true
    else if IsSend(t[0]) then !busy && PacedFrom(t[1..], true)
    else if IsPause(t[0]) then PacedFrom(t[1..], false)
    else PacedFrom(t[1..], busy)
  }

  /** Whether a session is still busy (a send not yet followed by a pause) after t. */
  function BusyAfter(t: seq<Event>, busy: bool): bool {
    if t == [] then busy
    else BusyAfter(t[1..], if IsSend(t[0]) then true else if IsPause(t[0]) then false else busy)
  }

  /** Every send in the trace is separated from the next one, and from the end
      of the run, by a pause. */
  predicate Paced(t: seq<Event>) {
    PacedFrom(t, false) && !BusyAfter(t, false)
  }

  lemma {:induction false} PacedAppend(a: seq<Event>, b: seq<Event>, busy: bool)
    ensures PacedFrom(a + b, busy) == (PacedFrom(a, busy) && PacedFrom(b, BusyAfter(a, busy)))
    ensures BusyAfter(a + b, busy) == BusyAfter(b, BusyAfter(a, busy))
  {
    if a == [] {
      assert a + b == b;
    } else {
      assert (a + b)[1..] == a[1..] + b;
      var next := if IsSend(a[0]) then true else if IsPause(a[0]) then false else busy;
      PacedAppend(a[1..], b, next);
    }
  }
}
