/**
  The bulk run: check that a spreadsheet and a payload were given, read the
  'WhatsApp' column, drop its empty cells, and for each remaining cell in
  row order either skip an invalid number or dispatch to it and then pause.

  RunTrace is the specification of a run as a trace of events; SendBulk is
  the run itself, a loop proved to produce exactly that trace.
 */
module Bulk {
  import opened Events
  import opened Phone
  import opened Dispatch

  /** The header of the column that holds the numbers. */
  const ColumnName: string := "WhatsApp"

  /** The seconds the run waits after each dispatch. */
  const PauseSeconds: nat := 15

  datatype Option<T> = None | Some(value: T)

  /** A cell of the contact column as the spreadsheet reader gives it; an
      empty cell is None (the reader's NaN). */
  type Cell = Option<string>

  /** A read spreadsheet: each column header with its cells in row order. */
  type Sheet = map<string, seq<Cell>>

  /** The stripped message and the media path, fixed for the whole run. */
  datatype Payload = Payload(body: string, media: string)

  /** What the outside world answers during a run, by dispatch number k
      (the k-th valid contact, from 0): whether the media file exists when
      that dispatch checks it, and whether that dispatch's send raises. */
  datatype Env = Env(mediaExists: nat -> bool, sendRaises: nat -> bool)

  /** The non-empty cells, in row order. */
  function Present(cells: seq<Cell>): (r: seq<string>)
    ensures |r| <= |cells|
    ensures forall s :: s in r <==> Some(s) in cells
  {
    if cells == [] then []
    else (if cells[0].Some? then [cells[0].value] else []) + Present(cells[1..])
  }

  lemma {:induction false} PresentAppend(a: seq<Cell>, b: seq<Cell>)
    ensures Present(a + b) == Present(a) + Present(b)
  {
    if a == [] {
      assert a + b == b;
    } else {
      assert (a + b)[1..] == a[1..] + b;
      PresentAppend(a[1..], b);
    }
  }

  /** The normalised numbers that pass validation, in row order. */
  function ValidNumbers(numbers: seq<string>): (v: seq<string>)
    ensures |v| <= |numbers|
  {
    if numbers == [] then []
    else
      var n := Normalise(numbers[0]);
      (if IsValid(n) then [n] else []) + ValidNumbers(numbers[1..])
  }

  /** Only numbers that pass validation are dialled, and each starts with '+'. */
  lemma {:induction false} ValidNumbersValid(numbers: seq<string>)
    ensures forall x :: x in ValidNumbers(numbers) ==> IsValid(x) && StartsWithPlus(x)
  {
    if numbers != [] {
      ValidNumbersValid(numbers[1..]);
    }
  }

  /** The events for one normalised number that is the k-th to be dispatched
      if it is valid. */
  function ContactTrace(number: string, k: nat, p: Payload, env: Env): (r: seq<Event>)
    ensures IsValid(number) ==> |r| > 0 && r[|r| - 1] == Pause(PauseSeconds)
    ensures IsValid(number) ==> Count(r, IsPause) == 1 && Count(r, IsSkip) == 0
    ensures IsValid(number) ==> Count(r, IsSend) <= 1
    ensures !IsValid(number) ==> r == [SkipInvalid(number)]
  {
    if IsValid(number) then
      var d := SendMessage(number, p.body, p.media, env.mediaExists(k), env.sendRaises(k));
      CountAppend(d, [Pause(PauseSeconds)], IsPause);
      CountAppend(d, [Pause(PauseSeconds)], IsSkip);
      CountAppend(d, [Pause(PauseSeconds)], IsSend);
      d + [Pause(PauseSeconds)]
    else [SkipInvalid(number)]
  }

  lemma ValidContactTrace(n: string, k: nat, p: Payload, env: Env)
    requires IsValid(n)
    ensures ContactTrace(n, k, p, env)
         == SendMessage(n, p.body, p.media, env.mediaExists(k), env.sendRaises(k)) + [Pause(PauseSeconds)]
  {
  }

  /** The events of the loop over the cell texts numbers, whose first valid
      number is the k-th dispatch. */
  function ContactsTrace(numbers: seq<string>, k: nat, p: Payload, env: Env): seq<Event> {
    if numbers == [] then []
    else
      var n := Normalise(numbers[0]);
      ContactTrace(n, k, p, env) + ContactsTrace(numbers[1..], if IsValid(n) then k + 1 else k, p, env)
  }

  /** The checks made before any spreadsheet row is read all pass. */
  predicate RunStarts(message: string, excelPath: string, media: string, sheet: Option<Sheet>) {
    && excelPath != []
    && (Strip(message) != [] || media != [])
    && sheet.Some?
    && ColumnName in sheet.value
  }

  /** The events of one run. message is the text box contents, excelPath and
      media the two path fields, sheet the spreadsheet as read (None when
      reading raised). */
  function RunTrace(message: string, excelPath: string, media: string, sheet: Option<Sheet>, env: Env): seq<Event> {
    var body := Strip(message);
    if excelPath == [] then [Error(MissingSpreadsheetPath)]
    else if body == [] && media == [] then [Error(MissingPayload)]
    else if sheet.None? then [Error(UnreadableSpreadsheet)]
    else if ColumnName !in sheet.value then [Error(MissingColumn)]
    else ContactsTrace(Present(sheet.value[ColumnName]), 0, Payload(body, media), env) + [Completed]
  }

  /** The run. */
  method SendBulk(message: string, excelPath: string, media: string, sheet: Option<Sheet>, env: Env)
    returns (trace: seq<Event>)
    ensures trace == RunTrace(message, excelPath, media, sheet, env)
  {
    var body := Strip(message);
    if excelPath == [] {
      return [Error(MissingSpreadsheetPath)];
    }
    if body == [] && media == [] {
      return [Error(MissingPayload)];
    }
    if sheet.None? {
      return [Error(UnreadableSpreadsheet)];
    }
    if ColumnName !in sheet.value {
      return [Error(MissingColumn)];
    }
    var numbers := Present(sheet.value[ColumnName]);
    ghost var p := Payload(body, media);
    trace := [];
    var k: nat := 0;
    for i := 0 to |numbers|
      invariant trace + ContactsTrace(numbers[i..], k, p, env) == ContactsTrace(numbers, 0, p, env)
    {
      ghost var before := trace;
      var valid, events := ProcessRow(numbers[i], k, body, media, env);
      trace := trace + events;
      LoopStep(numbers, i, k, p, env, before);
      if valid {
        k := k + 1;
      }
    }
    assert trace == ContactsTrace(numbers, 0, p, env) by {
      assert numbers[|numbers|..] == [];
    }
    trace := trace + [Completed];
  }

  /** One row of the loop: normalise the cell text, then skip the number or
      dispatch to it and pause. k is the number of earlier dispatches. */
  method ProcessRow(cell: string, k: nat, body: string, media: string, env: Env)
    returns (valid: bool, events: seq<Event>)
    ensures valid == IsValid(Normalise(cell))
    ensures events == ContactTrace(Normalise(cell), k, Payload(body, media), env)
  {
    var number := Strip(cell);
    if !StartsWithPlus(number) {
      number := CountryCode + number;
    }
    assert number == Normalise(cell);
    valid := IsValid(number);
    if !valid {
      events := [SkipInvalid(number)];
    } else {
      events := SendMessage(number, body, media, env.mediaExists(k), env.sendRaises(k));
      events := events + [Pause(PauseSeconds)];
      ValidContactTrace(number, k, Payload(body, media), env);
    }
  }

  /** One turn of the loop keeps its invariant: once the events of row i
      are added to those of the rows before it, what is left is the events of
      the rows after it. */
  lemma LoopStep(numbers: seq<string>, i: nat, k: nat, p: Payload, env: Env, before: seq<Event>)
    requires i < |numbers|
    requires before + ContactsTrace(numbers[i..], k, p, env) == ContactsTrace(numbers, 0, p, env)
    ensures var n := Normalise(numbers[i]);
      (before + ContactTrace(n, k, p, env)) + ContactsTrace(numbers[i + 1..], if IsValid(n) then k + 1 else k, p, env)
      == ContactsTrace(numbers, 0, p, env)
  {
    var n := Normalise(numbers[i]);
    var head := ContactTrace(n, k, p, env);
    var tail := ContactsTrace(numbers[i + 1..], if IsValid(n) then k + 1 else k, p, env);
    assert ContactsTrace(numbers[i..], k, p, env) == head + tail by {
      assert numbers[i..][0] == numbers[i];
      assert numbers[i..][1..] == numbers[i + 1..];
    }
    AppendAssoc(before, head, tail);
  }

  lemma AppendAssoc(a: seq<Event>, b: seq<Event>, c: seq<Event>)
    ensures (a + b) + c == a + (b + c)
  {
  }

  // ---------------------------------------------------------------------------
  // Properties of the loop over the contacts

  /** Each valid number gets exactly one pause, each invalid one exactly one
      skip and nothing else, and there is at most one send per valid number. */
  lemma ContactCounts(numbers: seq<string>, k: nat, p: Payload, env: Env)
    ensures Count(ContactsTrace(numbers, k, p, env), IsPause) == |ValidNumbers(numbers)|
    ensures Count(ContactsTrace(numbers, k, p, env), IsSkip) == |numbers| - |ValidNumbers(numbers)|
    ensures Count(ContactsTrace(numbers, k, p, env), IsSend) <= |ValidNumbers(numbers)|
  {
    PauseCount(numbers, k, p, env);
    SkipCount(numbers, k, p, env);
    SendCount(numbers, k, p, env);
  }

  lemma {:induction false} PauseCount(numbers: seq<string>, k: nat, p: Payload, env: Env)
    ensures Count(ContactsTrace(numbers, k, p, env), IsPause) == |ValidNumbers(numbers)|
  {
    if numbers != [] {
      var n := Normalise(numbers[0]);
      var k' := if IsValid(n) then k + 1 else k;
      CountAppend(ContactTrace(n, k, p, env), ContactsTrace(numbers[1..], k', p, env), IsPause);
      PauseCount(numbers[1..], k', p, env);
    }
  }

  lemma {:induction false} SkipCount(numbers: seq<string>, k: nat, p: Payload, env: Env)
    ensures Count(ContactsTrace(numbers, k, p, env), IsSkip) == |numbers| - |ValidNumbers(numbers)|
  {
    if numbers != [] {
      var n := Normalise(numbers[0]);
      var k' := if IsValid(n) then k + 1 else k;
      CountAppend(ContactTrace(n, k, p, env), ContactsTrace(numbers[1..], k', p, env), IsSkip);
      SkipCount(numbers[1..], k', p, env);
    }
  }

  lemma {:induction false} SendCount(numbers: seq<string>, k: nat, p: Payload, env: Env)
    ensures Count(ContactsTrace(numbers, k, p, env), IsSend) <= |ValidNumbers(numbers)|
  {
    if numbers != [] {
      var n := Normalise(numbers[0]);
      var k' := if IsValid(n) then k + 1 else k;
      CountAppend(ContactTrace(n, k, p, env), ContactsTrace(numbers[1..], k', p, env), IsSend);
      SendCount(numbers[1..], k', p, env);
    }
  }

  /** A valid number whose dispatch reaches a send is the one recipient of
      its events; an invalid one has none. */
  lemma ContactRecipients(n: string, k: nat, p: Payload, env: Env)
    requires p.media == [] || (Classify(p.media) != Unsupported && env.mediaExists(k))
    ensures Recipients(ContactTrace(n, k, p, env)) == if IsValid(n) then [n] else []
  {
    if IsValid(n) {
      var d := SendMessage(n, p.body, p.media, env.mediaExists(k), env.sendRaises(k));
      RecipientsAppend(d, [Pause(PauseSeconds)]);
    } else {
      assert [SkipInvalid(n)][1..] == [];
    }
  }

  /** When every dispatch reaches a send (no media, or a supported media file
      that is always found), the sends go to exactly the valid numbers, one
      each, in row order, whether or not earlier sends raised. */
  lemma {:induction false} RecipientsInRowOrder(numbers: seq<string>, k: nat, p: Payload, env: Env)
    requires p.media == [] || (Classify(p.media) != Unsupported && forall j :: env.mediaExists(j))
    ensures Recipients(ContactsTrace(numbers, k, p, env)) == ValidNumbers(numbers)
  {
    if numbers != [] {
      var n := Normalise(numbers[0]);
      var k' := if IsValid(n) then k + 1 else k;
      var head := ContactTrace(n, k, p, env);
      RecipientsAppend(head, ContactsTrace(numbers[1..], k', p, env));
      RecipientsInRowOrder(numbers[1..], k', p, env);
      ContactRecipients(n, k, p, env);
    }
  }

  /** A dispatch without a usable media file sends nothing. */
  lemma ContactNoSend(n: string, k: nat, p: Payload, env: Env)
    requires p.media != []
    requires Classify(p.media) == Unsupported || !env.mediaExists(k)
    ensures Count(ContactTrace(n, k, p, env), IsSend) == 0
  {
    if IsValid(n) {
      var d := SendMessage(n, p.body, p.media, env.mediaExists(k), env.sendRaises(k));
      CountAppend(d, [Pause(PauseSeconds)], IsSend);
    }
  }

  /** Without a usable media file (refused extension, or a file that is never
      found), no contact gets a send. */
  lemma {:induction false} NoSendWithoutUsableMedia(numbers: seq<string>, k: nat, p: Payload, env: Env)
    requires p.media != []
    requires Classify(p.media) == Unsupported || forall j :: !env.mediaExists(j)
    ensures Count(ContactsTrace(numbers, k, p, env), IsSend) == 0
  {
    if numbers != [] {
      var n := Normalise(numbers[0]);
      var k' := if IsValid(n) then k + 1 else k;
      var head := ContactTrace(n, k, p, env);
      CountAppend(head, ContactsTrace(numbers[1..], k', p, env), IsSend);
      NoSendWithoutUsableMedia(numbers[1..], k', p, env);
      ContactNoSend(n, k, p, env);
    }
  }

  /** Every send in a trace goes along the route the payload selects. */
  predicate AllFollowRoute(t: seq<Event>, p: Payload) {
    forall i :: 0 <= i < |t| && IsSend(t[i]) ==> FollowsRoute(t[i], p.body, p.media)
  }

  /** The send for one number, if any, goes along the payload's route. */
  lemma ContactFollowsRoute(n: string, k: nat, p: Payload, env: Env)
    ensures AllFollowRoute(ContactTrace(n, k, p, env), p)
  {
  }

  /** Every send of the loop carries the message along the route the payload
      selects: text without media, image for an image extension, document for
      a document extension; never another. */
  lemma {:induction false} SendsFollowRoute(numbers: seq<string>, k: nat, p: Payload, env: Env)
    ensures AllFollowRoute(ContactsTrace(numbers, k, p, env), p)
  {
    if numbers != [] {
      var n := Normalise(numbers[0]);
      var k' := if IsValid(n) then k + 1 else k;
      SendsFollowRoute(numbers[1..], k', p, env);
      ContactFollowsRoute(n, k, p, env);
      AllFollowRouteAppend(ContactTrace(n, k, p, env), ContactsTrace(numbers[1..], k', p, env), p);
    }
  }

  lemma AllFollowRouteAppend(a: seq<Event>, b: seq<Event>, p: Payload)
    requires AllFollowRoute(a, p) && AllFollowRoute(b, p)
    ensures AllFollowRoute(a + b, p)
  {
    var t := a + b;
    forall i | 0 <= i < |t| && IsSend(t[i]) ensures FollowsRoute(t[i], p.body, p.media) {
      if i >= |a| {
        assert t[i] == b[i - |a|];
      } else {
        assert t[i] == a[i];
      }
    }
  }

  /** The events for one number leave no send unpaused. */
  lemma ContactPaced(n: string, k: nat, p: Payload, env: Env)
    ensures PacedFrom(ContactTrace(n, k, p, env), false)
    ensures !BusyAfter(ContactTrace(n, k, p, env), false)
  {
    if IsValid(n) {
      var d := SendMessage(n, p.body, p.media, env.mediaExists(k), env.sendRaises(k));
      PacedAppend(d, [Pause(PauseSeconds)], false);
      assert BusyAfter([Pause(PauseSeconds)], BusyAfter(d, false)) == false;
    } else {
      assert BusyAfter([SkipInvalid(n)], false) == BusyAfter([], false);
    }
  }

  /** No send starts before the previous one has been followed by a pause,
      and the loop ends with no send left unpaused. */
  lemma {:induction false} ContactsPaced(numbers: seq<string>, k: nat, p: Payload, env: Env)
    ensures PacedFrom(ContactsTrace(numbers, k, p, env), false)
    ensures !BusyAfter(ContactsTrace(numbers, k, p, env), false)
  {
    if numbers != [] {
      var n := Normalise(numbers[0]);
      var k' := if IsValid(n) then k + 1 else k;
      var head := ContactTrace(n, k, p, env);
      ContactsPaced(numbers[1..], k', p, env);
      ContactPaced(n, k, p, env);
      PacedAppend(head, ContactsTrace(numbers[1..], k', p, env), false);
    }
  }

  /** A failing send changes nothing about the later contacts: two runs that
      see the same media files get the same sends and pauses, whatever their
      sends raise. */
  lemma {:induction false} FailuresDoNotStopTheLoop(numbers: seq<string>, k: nat, p: Payload, env1: Env, env2: Env)
    requires forall j :: env1.mediaExists(j) == env2.mediaExists(j)
    ensures Recipients(ContactsTrace(numbers, k, p, env1)) == Recipients(ContactsTrace(numbers, k, p, env2))
    ensures Count(ContactsTrace(numbers, k, p, env1), IsPause) == Count(ContactsTrace(numbers, k, p, env2), IsPause)
  {
    ContactCounts(numbers, k, p, env1);
    ContactCounts(numbers, k, p, env2);
    if numbers != [] {
      var n := Normalise(numbers[0]);
      var k' := if IsValid(n) then k + 1 else k;
      FailuresDoNotStopTheLoop(numbers[1..], k', p, env1, env2);
      RecipientsAppend(ContactTrace(n, k, p, env1), ContactsTrace(numbers[1..], k', p, env1));
      RecipientsAppend(ContactTrace(n, k, p, env2), ContactsTrace(numbers[1..], k', p, env2));
      if IsValid(n) {
        var d1 := SendMessage(n, p.body, p.media, env1.mediaExists(k), env1.sendRaises(k));
        var d2 := SendMessage(n, p.body, p.media, env2.mediaExists(k), env2.sendRaises(k));
        RecipientsAppend(d1, [Pause(PauseSeconds)]);
        RecipientsAppend(d2, [Pause(PauseSeconds)]);
      }
    }
  }

  // ---------------------------------------------------------------------------
  // Properties of a whole run

  /** A run whose checks fail reports one error and makes no send and no pause:
      no spreadsheet path, no message and no media, an unreadable
      spreadsheet, or no 'WhatsApp' column. */
  lemma AbortsBeforeAnySend(message: string, excelPath: string, media: string, sheet: Option<Sheet>, env: Env)
    requires !RunStarts(message, excelPath, media, sheet)
    ensures var t := RunTrace(message, excelPath, media, sheet, env);
      |t| == 1 && t[0].Error? && Count(t, IsSend) == 0 && Count(t, IsPause) == 0
  {
  }

  /** A run that starts ends with the success report, pauses once per valid
      number, skips each invalid one, sends at most once per valid number, and
      never starts a send before the previous one was followed by a pause. */
  lemma RunShape(message: string, excelPath: string, media: string, sheet: Option<Sheet>, env: Env)
    requires RunStarts(message, excelPath, media, sheet)
    ensures var t := RunTrace(message, excelPath, media, sheet, env);
      var numbers := Present(sheet.value[ColumnName]);
      && t[|t| - 1] == Completed
      && Count(t, IsPause) == |ValidNumbers(numbers)|
      && Count(t, IsSkip) == |numbers| - |ValidNumbers(numbers)|
      && Count(t, IsSend) <= |ValidNumbers(numbers)|
      && Paced(t)
  {
    var numbers := Present(sheet.value[ColumnName]);
    var p := Payload(Strip(message), media);
    var c := ContactsTrace(numbers, 0, p, env);
    ContactCounts(numbers, 0, p, env);
    ContactsPaced(numbers, 0, p, env);
    CountAppend(c, [Completed], IsPause);
    CountAppend(c, [Completed], IsSkip);
    CountAppend(c, [Completed], IsSend);
    PacedAppend(c, [Completed], false);
  }

  /** With no media file, every valid number gets exactly one text send, in
      row order, each carrying the stripped message, which is not empty. */
  lemma TextRunSendsMessageToEachValidNumber(message: string, excelPath: string, sheet: Option<Sheet>, env: Env)
    requires RunStarts(message, excelPath, [], sheet)
    ensures var t := RunTrace(message, excelPath, [], sheet, env);
      && Recipients(t) == ValidNumbers(Present(sheet.value[ColumnName]))
      && Strip(message) != []
      && forall i :: 0 <= i < |t| && IsSend(t[i]) ==> t[i] == SendText(t[i].phone, Strip(message))
  {
    var numbers := Present(sheet.value[ColumnName]);
    var p := Payload(Strip(message), []);
    var c := ContactsTrace(numbers, 0, p, env);
    RecipientsInRowOrder(numbers, 0, p, env);
    RecipientsAppend(c, [Completed]);
    SendsFollowRoute(numbers, 0, p, env);
    var t := c + [Completed];
    forall i | 0 <= i < |t| && IsSend(t[i]) ensures t[i] == SendText(t[i].phone, Strip(message)) {
      assert i < |c|;
      assert FollowsRoute(c[i], p.body, p.media);
    }
  }

  /** Empty cells make no difference to a run: not an event, not even a skip. */
  lemma EmptyCellsIgnored(message: string, excelPath: string, media: string, sheet: Sheet,
                          above: seq<Cell>, below: seq<Cell>, env: Env)
    ensures RunTrace(message, excelPath, media, Some(sheet[ColumnName := above + [None] + below]), env)
         == RunTrace(message, excelPath, media, Some(sheet[ColumnName := above + below]), env)
  {
    var s1 := sheet[ColumnName := above + [None] + below];
    var s2 := sheet[ColumnName := above + below];
    assert Present(s1[ColumnName]) == Present(s2[ColumnName]) by {
      PresentAppend(above + [None], below);
      PresentAppend(above, [None]);
      PresentAppend(above, below);
      assert Present([None]) == [];
    }
  }

  /** A first row that normalises to the valid number n and whose text send
      succeeds: one send, one pause, then the events of the other rows. */
  lemma SentRow(rows: seq<string>, n: string, k: nat, p: Payload, env: Env)
    requires |rows| > 0 && Normalise(rows[0]) == n && IsValid(n)
    requires p.media == [] && !env.sendRaises(k)
    ensures ContactsTrace(rows, k, p, env)
         == [SendText(n, p.body), Pause(PauseSeconds)] + ContactsTrace(rows[1..], k + 1, p, env)
  {
    assert ContactTrace(n, k, p, env) == [SendText(n, p.body), Pause(PauseSeconds)] by {
      ValidContactTrace(n, k, p, env);
      assert SendMessage(n, p.body, [], env.mediaExists(k), false) == [SendText(n, p.body)];
    }
  }

  /** A single row that normalises to the invalid number n is only skipped. */
  lemma SkippedRow(rows: seq<string>, n: string, k: nat, p: Payload, env: Env)
    requires |rows| == 1 && Normalise(rows[0]) == n && !IsValid(n)
    ensures ContactsTrace(rows, k, p, env) == [SkipInvalid(n)]
  {
    assert rows[1..] == [];
  }

  /** Two valid rows and an invalid one, with text sends that succeed: the
      two numbers are dialled in row order, each followed by a pause, and the
      third is skipped. */
  lemma TwoSentOneSkipped(a: string, b: string, c: string, na: string, nb: string, nc: string,
                          p: Payload, env: Env)
    requires Normalise(a) == na && IsValid(na)
    requires Normalise(b) == nb && IsValid(nb)
    requires Normalise(c) == nc && !IsValid(nc)
    requires p.media == []
    requires !env.sendRaises(0) && !env.sendRaises(1)
    ensures ContactsTrace([a, b, c], 0, p, env)
         == [SendText(na, p.body), Pause(PauseSeconds)]
          + ([SendText(nb, p.body), Pause(PauseSeconds)] + [SkipInvalid(nc)])
  {
    SkippedRow([c], nc, 2, p, env);
    assert [b, c][1..] == [c];
    SentRow([b, c], nb, 1, p, env);
    assert [a, b, c][1..] == [b, c];
    SentRow([a, b, c], na, 0, p, env);
  }

  /** A sample contact column: a local number, an international one, an empty
      cell and a text that is not a number. Dropping the empty cell keeps three rows. */
  lemma ExampleCells()
    ensures Present([Some("9876543210"), Some("+1234567891"), None, Some("abc")])
         == ["9876543210", "+1234567891", "abc"]
  {
    var cells := [Some("9876543210"), Some("+1234567891"), None, Some("abc")];
    assert cells[1..][1..][1..][1..] == [];
  }

  /** The three rows kept from the sample column, dispatched with a text
      message whose two sends succeed. */
  lemma ExampleRows(p: Payload, env: Env)
    requires p.media == []
    requires !env.sendRaises(0) && !env.sendRaises(1)
    ensures ContactsTrace(["9876543210", "+1234567891", "abc"], 0, p, env)
         == [SendText("+919876543210", p.body), Pause(PauseSeconds)]
          + ([SendText("+1234567891", p.body), Pause(PauseSeconds)] + [SkipInvalid("+91abc")])
  {
    LocalNumberGetsCountryCode();
    LocalNumberAccepted();
    InternationalNumberKept();
    LettersRejected();
    TwoSentOneSkipped("9876543210", "+1234567891", "abc", "+919876543210", "+1234567891", "+91abc", p, env);
  }

  /** A whole run over the sample column "9876543210", "+1234567891", an empty
      cell and "abc", with a text message, in a run whose two sends succeed. */
  lemma Example(env: Env)
    requires !env.sendRaises(0) && !env.sendRaises(1)
    ensures RunTrace("Hello\n", "contacts.xlsx", [],
                     Some(map[ColumnName := [Some("9876543210"), Some("+1234567891"), None, Some("abc")]]), env)
         == [SendText("+919876543210", "Hello"), Pause(PauseSeconds)]
          + ([SendText("+1234567891", "Hello"), Pause(PauseSeconds)] + [SkipInvalid("+91abc")])
          + [Completed]
  {
    assert Strip("Hello\n") == "Hello" by {
      assert "Hello\n"[0..5] == "Hello";
    }
    ExampleCells();
    ExampleRows(Payload("Hello", []), env);
  }
}
