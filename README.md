# Bulk WhatsApp sender — a Dafny model

`media.py` is a small desktop tool. It reads a spreadsheet column headed
`WhatsApp` and sends each valid number a text message, an image or a
document. The sends go through a browser-automation library.

This project models the core of that tool:

- **Phone numbers** (`phone.dfy`, module `Phone`). The tool strips a cell's
  text. It prefixes the default country code `+91` unless the text already
  starts with `+`. It accepts the result only when it is longer than ten
  characters and everything after its first character is a digit.
- **One dispatch** (`dispatch.dfy`, module `Dispatch`). This is
  `send_whatsapp_message`:
  - with no media file, the text is sent;
  - a media file that does not exist sends nothing and reports an error;
  - otherwise the lower-cased extension picks one of three paths. `.jpg`,
    `.jpeg` and `.png` go to the image send, with a 15-second wait.
    `.pdf` and `.docx` go to the document send. Any other extension is an
    error.
  - A send that raises is logged, and the run goes on.
- **The bulk run** (`bulk.dfy`, module `Bulk`). This is `send_bulk_whatsapp`.
  It checks for a spreadsheet path, a message or media file, a readable
  spreadsheet and the `WhatsApp` column, stopping at the first that is
  missing. It then drops the empty cells. Each remaining cell, in row
  order, is either skipped as invalid or dispatched and followed by a
  15-second pause. The run ends with a success report.
- **Events** (`events.dfy`, module `Events`). The externally visible effects
  of a run form a trace of events: sends, send failures, skips, pauses,
  error dialogs and the final success dialog. `Count`, `Recipients` and
  `Paced` read properties off a trace.

`RunTrace` specifies the events of a run as a function of its inputs.
`SendBulk` is the run written as the loop of the source, and its contract
is that it produces exactly `RunTrace`. The lemmas state what a run
promises:

- which numbers are dialled, and in which order;
- how many pauses and skips a run has;
- that every send follows the payload's route;
- that no send starts before the previous one was followed by a pause;
- that a failing send does not stop the loop;
- that a failed check stops the run before any send.

The outside world enters as parameters:

- The spreadsheet as read is an `Option` of a map from column headers to
  cells. `None` stands for a read that raised.
- An empty cell is `None`, the reader's NaN.
- Whether the media file exists, and whether a send raises, are oracles
  `Env.mediaExists` and `Env.sendRaises`. Both are indexed by the dispatch
  number: the k-th valid contact, from 0.

On empty cells the model follows the code. The code drops only the cells
the spreadsheet reader returns as missing (NaN). A cell whose text is only
whitespace is kept: it normalises to `+91` and is skipped as an invalid
number. It is not dropped.

## Model

| member | source | states |
|---|---|---|
| Phone.Strip | media.py:74 | the stripped text is the cell text with only whitespace removed from its two ends: it is the run of characters that follows the leading whitespace, everything after it is whitespace, and it neither starts nor ends with whitespace; text already trimmed is unchanged; the result is empty exactly when the cell is all whitespace |
| Phone.StripIdempotent | media.py:74 | stripping a stripped text changes nothing |
| Phone.StripOneSpaceEachSide | media.py:74 | text with exactly one whitespace character at each end loses just those two |
| Phone.Normalise | media.py:74-79 | the dialled number starts with '+', ends with the stripped cell text, and is at most the country code's length longer than it |
| Phone.NormaliseKeepsPlus | media.py:77 | a stripped text that starts with '+' is dialled as it is |
| Phone.NormaliseAddsCountryCode | media.py:77-79 | any other stripped text is dialled as "+91" followed by it |
| Phone.NormaliseTrimmed | media.py:77-79 | a cell text without whitespace at its ends is kept when it starts with '+' and gets "+91" in front otherwise |
| Phone.NormaliseIdempotent | media.py:74-79 | normalising a normalised number changes nothing |
| Phone.ValidIff | media.py:82 | a number is accepted if and only if it is longer than ten characters and every character after the first is a digit |
| Phone.AcceptedNeedsEightCharacters | media.py:77-82 | an accepted cell's stripped text has at least eight characters |
| Phone.NonDigitRejected | media.py:74-84 | a non-digit anywhere after the first character of the stripped text makes the number rejected, with or without the added country code |
| Phone.TenDigitsAccepted | media.py:74-84 | a cell of exactly ten ASCII digits is dialled as "+91" followed by them, and accepted |
| Phone.DigitsAfterCountryCode | media.py:82 | "+91" followed by ten ASCII digits passes validation |
| Phone.LocalNumberGetsCountryCode | media.py:77-79 | "9876543210" is dialled as "+919876543210" |
| Phone.LocalNumberAccepted | media.py:82 | "+919876543210" passes validation |
| Phone.InternationalNumberKept | media.py:74-84 | "+1234567891" is dialled unchanged and accepted |
| Phone.InternationalNumberAccepted | media.py:82 | "+1234567891" passes validation |
| Phone.LettersRejected | media.py:77-84 | "abc" becomes "+91abc" and is rejected |
| Phone.LettersGetCountryCode | media.py:77-79 | "abc" is dialled as "+91abc" |
| Phone.InnerSpaceStripped | media.py:74 | only the whitespace at the ends of " 98765 43210\n" is removed |
| Phone.InnerSpaceRejected | media.py:74-84 | a number with a space inside it is rejected |
| Dispatch.Extension | media.py:30 | the extension is empty or a proper suffix of the path that starts with '.' and holds no other '.' or '/' |
| Dispatch.Lower | media.py:30 | lower-casing keeps the length; the result has no upper-case ASCII letter; every character that is not an upper-case letter is kept; an upper-case letter becomes its lower-case form, 32 code points further on |
| Dispatch.LowerIgnoresLetterCase | media.py:30 | two texts that differ only in the case of ASCII letters lower-case to the same text |
| Dispatch.ExtensionOfJoin | media.py:30 | a path whose final component has a character other than '.', followed by a '.' and characters that are neither '.' nor '/', has exactly that extension |
| Dispatch.LeadingDotsNoExtension | media.py:30 | a final path component made of one or more dots followed by a name without dots has no extension |
| Dispatch.ExtensionOfLower | media.py:30 | taking the extension and lower-casing commute |
| Dispatch.ClassifyIgnoresCase | media.py:30-42 | two paths that lower-case alike take the same send path |
| Dispatch.ImageExtensionRoutesToImage | media.py:30-35 | a path whose final component has a character other than '.' before an extension .jpg, .jpeg or .png, in any case, goes to the image send |
| Dispatch.DocumentExtensionRoutesToDocument | media.py:30-39 | a path whose final component has a character other than '.' before an extension .pdf or .docx, in any case, goes to the document send |
| Dispatch.OtherExtensionUnsupported | media.py:30-42 | a path whose final component has a character other than '.' before any other extension is refused as an unsupported format |
| Dispatch.HiddenFileUnsupported | media.py:30-42 | "media/.png" has no extension and is refused |
| Dispatch.Attempt | media.py:23-48 | exactly one send call, to the number, first; a failure is logged exactly when the send raises; no pause or skip |
| Dispatch.SendMessage | media.py:22-48 | at most one send; a send happens exactly when there is no media or the file exists with a supported extension; the send carries the number and follows the route the payload selects; a missing file yields only the not-found error; a failure is logged exactly when a send happened and raised |
| Dispatch.TextWithoutMedia | media.py:43-46 | without media the one send is the text send of the message |
| Dispatch.ExistenceCheckedFirst | media.py:24-42 | a missing file is reported before the extension is looked at |
| Bulk.Present | media.py:71 | the kept cell texts are exactly the texts of the non-empty cells, and no more |
| Bulk.PresentAppend | media.py:71 | dropping empty cells works row by row |
| Bulk.EmptyCellsIgnored | media.py:71 | inserting an empty cell anywhere in the column changes nothing in the run |
| Bulk.ValidNumbersValid | media.py:74-84 | every number that is dialled passed validation and starts with '+' |
| Bulk.ContactTrace | media.py:73-90 | an invalid number gives only its skip; a valid one ends with its one pause, with at most one send and no skip |
| Bulk.ValidContactTrace | media.py:86-90 | a valid number's events are the dispatch followed by the pause |
| Bulk.ProcessRow | media.py:73-90 | one loop turn yields whether the normalised number is valid and exactly that number's events |
| Bulk.SendBulk | media.py:50-92 | the run produces exactly the specified trace: the first failed check's error, or the rows' events followed by the success report |
| Bulk.ContactCounts | media.py:73-90 | the loop pauses once per valid number, skips once per invalid one, and sends at most once per valid number |
| Bulk.PauseCount | media.py:86-90 | one pause per valid number |
| Bulk.SkipCount | media.py:82-84 | one skip per invalid number |
| Bulk.SendCount | media.py:86-89 | at most one send per valid number |
| Bulk.ContactRecipients | media.py:82-89 | a valid number whose dispatch reaches a send is its only recipient; an invalid one gets nothing |
| Bulk.RecipientsInRowOrder | media.py:71-89 | when every dispatch reaches a send, the sends go to exactly the valid numbers, once each, in row order |
| Bulk.ContactNoSend | media.py:24-42 | a dispatch without a usable media file sends nothing |
| Bulk.NoSendWithoutUsableMedia | media.py:24-42 | with a refused extension, or a file never found, no contact gets a send |
| Bulk.ContactFollowsRoute | media.py:30-46 | the send for one number carries the message along the payload's route |
| Bulk.SendsFollowRoute | media.py:73-89 | every send of the loop follows the route: text without media, image or document by extension |
| Bulk.ContactPaced | media.py:89-90 | the events for one number leave no send unpaused |
| Bulk.ContactsPaced | media.py:73-90 | no send starts before the previous one was followed by a pause, and the loop leaves none unpaused |
| Bulk.FailuresDoNotStopTheLoop | media.py:47-48 | two runs that see the same media files make the same sends and pauses, whatever their sends raise |
| Bulk.AbortsBeforeAnySend | media.py:55-69 | a run whose checks fail reports one error and makes no send and no pause |
| Bulk.RunShape | media.py:63-92 | a run that starts ends with the success report, has one pause per valid number and one skip per invalid one, sends at most once per valid number, and is paced |
| Bulk.TextRunSendsMessageToEachValidNumber | media.py:50-92 | with no media, the valid numbers get the stripped message as a text send, once each, in row order, and that message is not empty |
| Bulk.SentRow | media.py:73-90 | a valid first row whose text send succeeds gives a send and a pause before the other rows' events |
| Bulk.SkippedRow | media.py:82-84 | a single invalid row gives only its skip |
| Bulk.TwoSentOneSkipped | media.py:73-90 | two valid rows and an invalid one: two sends in row order, each followed by a pause, then the skip |
| Bulk.ExampleCells | media.py:71 | the column "9876543210", "+1234567891", empty, "abc" keeps three rows |
| Bulk.ExampleRows | media.py:73-90 | those rows send to "+919876543210" and "+1234567891" and skip "+91abc" |
| Bulk.Example | media.py:50-92 | the full run on that column with the message "Hello\n" gives the two text sends of "Hello" with their pauses, the skip, and the success report |

## Left out

- The window, the file-browsing dialogs and the event loop (`browse_file`, `browse_media` and the widget setup) are not modelled. They only fill in the three inputs of a run.
- Reading the spreadsheet is a parameter. Which files it can read, and how cells of other types print, are outside the model: a number cell read as a float prints with a trailing ".0", for example. Cells are given as their text.
- The browser-automation library's sends become events. Whether a send raises is an oracle. What happens in the browser is not modelled.
- The 15-second sleep is a `Pause` event. No time passes in the model.
- The file-existence test is an oracle, asked once per dispatch.
- Console lines that only report progress ("Sending … to …") are not events. The skip log and the failure log are, because they carry the number.
- The outer exception handler of the run is modelled only for a spreadsheet that cannot be read. Nothing else in the modelled code raises: send errors are caught inside the dispatch.
- Phone.IsSpace and Phone.IsDigit follow Python's whitespace and digit tests for Latin-1 characters only. Other Unicode whitespace and digits are not modelled.
- Dispatch.Lower lower-cases ASCII letters only. The extensions it is compared with are ASCII.
- Dispatch.Extension follows the POSIX path rules. Windows separators and drive letters are not modelled.
- Dispatch.Classify has no contract of its own. Its behaviour is stated by the routing lemmas above.
- Phone.IsValid, Bulk.ContactsTrace and Bulk.RunTrace are specification functions without contracts of their own. Their properties are stated by other rows: IsValid by Phone.ValidIff and Phone.NonDigitRejected, ContactsTrace by the loop lemmas from Bulk.ContactCounts to Bulk.FailuresDoNotStopTheLoop, and RunTrace by Bulk.SendBulk and Bulk.RunShape.
