# Telco-Vecchio daemon: a verified model

Telco-Vecchio is a daemon on a 4G router that opens and closes ssh tunnels on request by SMS. This
project models its Rust code in Dafny and proves what the code keeps over every run. `dafny verify
dfyconfig.toml` checks everything.

The model has three cores.

- **Tunnels and the daemon loop.** `Tunnels`, `Requests`, `Expiry` and `Status` say what one request,
  clean-up or status reading does as functions of the world (cached status, tunnel registry, ssh
  children) and of the environment's answers. `Contexts` and `Loop` are the mutable code, method by
  method, proved equal to those functions. `RequestLaws` and `Commands` prove properties of all requests, by the
  raw text and answers, `RunLaws`, `RunHistory`, `ExpiryLaws`, `Displacement`, `Starvation` and `Undeliverable` of all
  runs. `Init` and `Listener` cover start-up and the register of the restart notification, `Lifetimes` boots and runs in
  turn.
- **SMS PDUs.** `BitStream`, `Septets`, `Alphabet`, `Hex`, `Messages`, `AsciiCodes`, `PhoneNumbers`, `Pdu`,
  `Delivery`, `Utf8`, `Indication` and `Modem` follow a message from its text to the serial port and back. `Pdu` also
  contains an independent reader of SMS-SUBMIT and `Delivery` an independent writer of SMS-DELIVER, both after 3GPP TS
  23.040.
  `WideText` is about deliveries in UCS2. `Arrivals` says which messages can reach the daemon at all, which bounds
  what the events of a run can be, `Transmissions` which of the reads that a notification is cut into are taken notice
  of, and `Reception` what messages of unknown senders do to the daemon.
- **The tunnel URL reader.** `Matchers`, `TunnelReader`, `TunnelOutput` and `TunnelText`: a scanner over a growing,
  zero-padded buffer against one scan of the whole output, and what that scan finds in literal text.

Environment results are inputs: what probes, processes, the modem and the file system answer, the order in
which a hash map is traversed (any order that lists the live references once), and the clock, in
nanoseconds and never going back. Ssh children are numbered in the order they are spawned. They are
released when killed or when their handle is dropped, since each is spawned with `kill_on_drop`.

The gsm7, hex and regex-lite crates are not part of this model. Septet packing and the alphabet are
written from 3GPP TS 23.038 (sections 6.1.2.1.1, 6.2.1 and 6.2.1.1); what the gsm7 crate does beyond them is an
assumption (whether 7 spare bits are zeros or a carriage return is left open, and septets without a
character are refused). The two patterns and the notification pattern are explicit leftmost matchers.

## Findings

Properties that the code does not have in general are stated with their exact condition.

- A tunnel reference is the number of open tunnels, which can be live once references have gaps. The open
  then replaces that tunnel, although its reference was to identify a new one. A run that does this
  exists exactly for the configurations that let more than one tunnel be open by requests that can arrive
  (`Displacement.DisplacementIsPossible`).
- One read of the modem takes 128 bytes and nothing is kept between reads. A notification is taken notice of exactly
  if one read holds all of it (`Transmissions.TransmissionIsHeard`), which some cutting into reads achieves exactly if
  it takes at most 128 bytes (`Transmissions.HearingIsPossible`). Some read can yield a sender and a text at all exactly
  if the sender fits a twelve-byte field and the text 36 septets (`Arrivals.ArrivesExactly`); with an indication as
  3GPP TS 27.005 has it, that is 34 septets (`Reception.StandardMessageCanBeHeard`).
- A received message survives decoding exactly when it has no more UTF-8 bytes than septets, and as many
  when its septet count is 7 modulo 8 (`Messages.RoundTrip`).
- Of those that do not survive, the ones whose septet count, taken for bytes, lies inside a character panic, and
  exactly those (`Messages.DecodingPanics`, `Delivery.DeliverPanics`); the others lose their last characters or gain
  one. A one-letter `é` is such a message (`Messages.AccentPanics`).
- Neither header nor coding of a delivery is looked at, nor the type of the sender's address
  (`Delivery.CodingIsIgnored`). The sender that is read is the one that sent exactly for international numbers of
  decimal digits (`Delivery.SenderIsRead`). A UCS2 message is received as sent exactly when it is empty
  (`WideText.Ucs2IsNotReceived`).
- Data of any coding panic exactly when, read as septets, they are cut inside a character
  (`Delivery.DeliveryPanics`); the UCS2 message `B` is one (`WideText.LetterBPanics`). Of all texts whatsoever, exactly
  those and the ones that the slices do not fit panic (`Delivery.ReadingPanics`). The panic comes before the sender is
  looked up: silence towards unknown senders holds exactly as long as no such PDU is heard, and one that is ends the
  daemon and every tunnel (`Reception.NoiseIsSilent`). A delivery of more than 32 octets is ignored instead
  (`Reception.LongDeliveryIsIgnored`).
- A sent PDU means to its reader what was intended exactly for numbers of eleven digits and nothing else but plus
  signs, and messages with as many UTF-8 bytes as septets (`Pdu.SubmitIsUnderstood`); an odd number of more than
  twelve digits panics (`Pdu.SubmitText`).
- A split of the tunnel output into reads hides its URL exactly when one of the reads ends before the URL line is
  complete and behind a beginning of an error token (`TunnelOutput.SplitReadsUrl`); some split of at most 30 bytes a
  read does so exactly when a token shows before the line is complete (`TunnelOutput.EverySplitReadsUrl`).
- The tunnel timeout is enforced by ticks only, and waits that end early put ticks off. Without a tick tunnels outlive
  every bound in exactly the configurations in which one can be opened (`Starvation.NoTickNoExpiry`); messages alone or
  failed readings alone do it (`Starvation.OneCauseIsEnough`).
- An expiry notice goes to the first user of the tunnel's user name. Some run ends in a panic over one exactly when a
  tunnel can be opened under a name whose first user's phone number has an odd number of more than twelve digits
  (`Undeliverable.NoticePanicIsPossible`), and none does when names are distinct
  (`Undeliverable.DistinctNamesNeverPanic`).
- The reply that refuses an unreachable application names the device status, which is Ready, in the application's
  place (`RequestLaws.RefusalsAreTrue`).
- With duplicate application names the status that `open` tests is another application's
  (`Status.LookupIsOfResolved`).

## Model

| member | source | states |
|---|---|---|
| Septets.UnpackPack | daemon/src/sms_utils.rs:190-208 | Unpacking packed septets returns them, and one septet more exactly when their count is 7 modulo 8, for either fill (TS 23.038, section 6.1.2.1.1). |
| Septets.PackLayout | daemon/src/sms_utils.rs:190-197 | Every bit of every packed octet is the bit of the septet that the standard's layout puts there. |
| Hex.DecodeEncode | daemon/src/sms_utils.rs:194-202 | Octets come back from upper-case hexadecimal, lower-cased again or not. |
| Hex.DigitIsLiteral | daemon/src/sms_utils.rs:194-202 | The sixteen digits, lower-case when written, of either case when read. |
| Messages.DecodedMessage | daemon/src/sms_utils.rs:190-208 | Decoding an encoded message truncates the message and its extra character, if any, to the given size, for every encodable message. |
| Messages.RoundTrip | daemon/src/sms_utils.rs:190-208 | A message comes back at its septet count if and only if its UTF-8 bytes do not exceed that count, and equal it when packing leaves room for one more septet. |
| Messages.PlainRoundTrip | daemon/src/sms_utils.rs:190-208 | Every message of one-byte, one-septet characters comes back at its length, whatever that is. |
| Messages.AsciiIsPlain | daemon/src/sms_utils.rs:190-197 | Letters, digits, the space, line ends and most ASCII punctuation are such characters. |
| AsciiCodes.AsciiIsExact | daemon/src/sms_utils.rs:190-197 | Every ASCII character by its septets: its own code, another code, a code behind an escape, or none (TS 23.038, sections 6.2.1 and 6.2.1.1). |
| Messages.DecodingPanics | daemon/src/sms_utils.rs:200-208 | For every encodable message and size, decoding panics if and only if the size lies inside a character of the message and its extra character; it never fails otherwise. |
| Messages.AccentPanics | daemon/src/sms_utils.rs:204-205 | The concrete message "é" panics. |
| PhoneNumbers.EncodePhoneNumber | daemon/src/sms_utils.rs:160-173 | The chunk loop swaps every pair of the padded number, or panics on an odd length. |
| PhoneNumbers.DecodePhoneNumber | daemon/src/sms_utils.rs:175-188 | The chunk loop swaps every pair and drops the fill, or panics on an odd length. |
| PhoneNumbers.SwapPairsAt | daemon/src/sms_utils.rs:166-169 | Each character of a swapped text is its pair's other character. |
| PhoneNumbers.SwapPairsInvolution | daemon/src/sms_utils.rs:166-183 | Swapping pairs twice gives back every text of even length. |
| PhoneNumbers.DecodeEncodePhone | daemon/src/sms_utils.rs:160-188 | A phone number comes back from encoding and decoding if and only if it is a plus sign before digits without plus or F, at most twelve or an even number of them. |
| PhoneNumbers.EncodeDecodePhone | daemon/src/sms_utils.rs:160-188 | A twelve-character field comes back from decoding and encoding if and only if it is well formed: a reply carries the field that the request arrived with. |
| PhoneNumbers.ReplyNumberEncodes | daemon/src/main.rs:114-115 | The number decoded from any field that can be received can be encoded for the reply without a panic, in a full field. |
| Pdu.SubmitText | daemon/src/sms_utils.rs:52-68 | For every number of digits and every accepted message the text sent is SMS-SUBMIT in hexadecimal, and AT+CMGS announces its TPDU octets: 8, the number's, and the rounded-up seven eighths of the septets; or composing panics, exactly for an odd number of more than twelve digits. |
| Pdu.ComposingIsExact | daemon/src/sms_utils.rs:52-68 | A message is composed exactly with at most 140 bytes, characters of the alphabet and a number that pairs up; composing panics exactly over a number that does not, in a message of at most 140 bytes. |
| Pdu.SubmitIsUnderstood | daemon/src/sms_utils.rs:62-64 | For every message that is composed to whatever number, a reader of sections 9.1.2.3 and 9.2.2.2 of TS 23.040 gets the number and the septets from the text if and only if the number has eleven digits and nothing else but plus signs, and the message as many bytes as septets. |
| Delivery.CodingIsIgnored | daemon/src/sms_utils.rs:105-114 | What is read of every SMS-DELIVER with a seven-octet SMSC and six octets of a sender's address is a function of those octets, the user-data length and the user data as septets, whatever its header, address type, protocol, coding, centre and timestamp say. |
| Delivery.SenderIsRead | daemon/src/sms_utils.rs:175-188 | The sender that is read of such a delivery is the one that its address stands for if and only if that is an international number of decimal digits in the standard's filling. |
| Delivery.NumbersAreRead | daemon/src/sms_utils.rs:175-188 | Every such number of eleven or twelve digits is read as a plus sign and the digits. |
| Delivery.ReadingPanics | daemon/src/sms_utils.rs:105-114 | Reading a text, whatever it is, panics if and only if the slices do not fit it or its body, read as septets, has a character across the byte taken for its end. |
| Delivery.ReadingIsExact | daemon/src/sms_utils.rs:105-114 | Reading a text, whatever it is, fails if and only if the slices fit it and its body is no hexadecimal or no septets of characters; otherwise the message is the text of the septets, all of it or its first bytes to the size. |
| Delivery.DeliveryPanics | daemon/src/sms_utils.rs:105-114 | Reading such a delivery of any length and data panics if and only if the data, read as septets, have a character across the byte of that length. |
| Delivery.DeliverIsReceived | daemon/src/sms_utils.rs:105-114 | Of every such SMS-DELIVER without user-data header and in the default alphabet, the number that sent and the message are recovered if and only if the message survives decoding and the sender is such an international number. |
| Delivery.DeliverPanics | daemon/src/sms_utils.rs:105-114 | Reading such a delivery in the default alphabet panics if and only if its septet count lies inside a character; otherwise it yields some message from the number that is read. |
| WideText.Ucs2IsNotReceived | daemon/src/sms_utils.rs:109-111 | Of every such SMS-DELIVER in UCS2, whatever its message, the message is recovered if and only if it is empty. |
| WideText.LetterBPanics | daemon/src/sms_utils.rs:204-205 | The concrete UCS2 message "B" panics. |
| Indication.WaitSms | daemon/src/sms_utils.rs:90-115 | The read loop takes the first read with a notification, keeping nothing of the reads before it. |
| Indication.CaptureIsExact | daemon/src/sms_utils.rs:90-103 | What is captured from a read is exactly the second line of its leftmost match of "+CMT:", a line, a carriage return and line feed, a non-empty line, and the same again. |
| Indication.WaitIsExact | daemon/src/sms_utils.rs:90-115 | A wait is ended by the first read that fails or has a notification, by that failure or that PDU alone. |
| Indication.WaitsInTurn | daemon/src/sms_utils.rs:87-115 | Reads in a row end the waits that each part of them ends, in turn, up to a panic. |
| Indication.NotificationIsReceived | daemon/src/sms_utils.rs:87-115 | After any reads without one, the first read with a whole notification of a delivery in the default alphabet yields sender and message, if and only if the message survives decoding, and panics if and only if it is cut inside a character. |
| Arrivals.ArrivesExactly | daemon/src/sms_utils.rs:87-158 | Some text that one read of at most 128 bytes can hold yields a given sender and text if and only if the sender is a plus sign before what a twelve-byte field can hold and the text has at most 36 septets. |
| Arrivals.ReceivedArrives | daemon/src/sms_utils.rs:87-158 | Whatever the modem delivers in reads of at most 128 bytes, what a wait receives is such a sender and text. |
| Transmissions.TransmissionIsHeard | daemon/src/sms_utils.rs:87-158 | However a notification and the text around it are cut into reads of at most 128 bytes, a wait ends with its PDU's reading if one read holds all of it, and otherwise goes on as if nothing had been sent. |
| Transmissions.HearingIsPossible | daemon/src/sms_utils.rs:87-158 | Some such cutting has a read that holds the whole notification if and only if it takes at most 128 bytes. |
| Reception.DeliveryCanBeHeard | daemon/src/sms_utils.rs:87-158 | For every delivery that is so if and only if the parameters of the indication and twice the octets of the data take at most 65 bytes. |
| Reception.StandardDeliveryCanBeHeard | daemon/src/sms_utils.rs:87-158 | With the parameters of section 3.4.1 of TS 27.005 that is so if and only if the data have at most 30 octets. |
| Reception.StandardMessageCanBeHeard | daemon/src/sms_utils.rs:87-158 | For a message in the default alphabet that is so if and only if it has at most 34 septets. |
| Reception.LongDeliveryIsIgnored | daemon/src/sms_utils.rs:87-158 | A delivery of more than 32 octets of data leaves the wait to what comes next, whatever its reads. |
| Modem.EchoIsExact | daemon/src/sms_utils.rs:143-151 | However the bytes arrive, the echo loop takes exactly as many as the command has, whenever there are so many. |
| Modem.SerialPort.AtTransaction | daemon/src/sms_utils.rs:138-158 | Writing, the echo loop and the read of the response equal their specification over the portions that arrive, in result, in what is left and in what is written, failures included. |
| Modem.SerialPort.SendSms | daemon/src/sms_utils.rs:52-85 | The dialogue equals its specification over the portions that arrive, in result and in what is written; a message that cannot be composed is refused, or panics, before anything is written. |
| Modem.AnswerIsExact | daemon/src/sms_utils.rs:143-157 | Behind an echo in whatever portions the next portion, or its first 128 bytes, is the response exactly if it is UTF-8; anything else, or nothing, is an error. |
| Modem.SendingIsExact | daemon/src/sms_utils.rs:52-85 | Of every message that is composed, for all echoes in whatever portions and all responses of at most 128 bytes, the sending succeeds if and only if the first response has ">" and the second "OK"; the PDU is written exactly behind a response with ">". |
| Modem.EveryCommandIsCmgs | daemon/src/sms_utils.rs:66-72 | Every message that is composed has a command of that form: "AT+CMGS=", the octets of the PDU text without the SMSC length, in decimal, and a carriage return. |
| Matchers.FindUrlInPrefix | daemon/src/ssh_utils.rs:58-69 | A prefix shows the leftmost URL line as soon as it holds that line's line feed, and none before. |
| Matchers.FindErrorInPrefix | daemon/src/ssh_utils.rs:59-73 | A token found in a prefix starts at the whole text's leftmost token and is part of it. |
| TunnelReader.PaddingIsInert | daemon/src/ssh_utils.rs:57-66 | The zero padding changes neither the URL match nor the error match. |
| TunnelReader.SetupReader | daemon/src/ssh_utils.rs:54-93 | The cursor loop decides on the output so far after every read, until a decision, a failure or the timeout. |
| TunnelOutput.SplitReadsUrl | daemon/src/ssh_utils.rs:57-88 | For every ASCII output with a URL line and every split of it, the URL that one scan of the whole finds is read if and only if no read ends before that line is complete and behind a beginning of an error token. |
| TunnelOutput.EverySplitReadsUrl | daemon/src/ssh_utils.rs:57-88 | All splits into reads of at most 30 bytes read that URL if and only if no error token shows before its line is complete. |
| TunnelOutput.EverySplitWithoutUrl | daemon/src/ssh_utils.rs:57-93 | Without a URL line every split reports a beginning of the first error token, or the setup timeout when there is none. |
| TunnelText.UrlIsExact | daemon/src/ssh_utils.rs:58-71 | Bytes have a URL if and only if they hold the word, two spaces, something without a line feed and a line feed. |
| TunnelText.ErrorIsExact | daemon/src/ssh_utils.rs:59-75 | Bytes have an error if and only if they hold "ERR_" and a letter, digit or underscore behind it. |
| TunnelText.ForwardingLineIsRead | daemon/src/ssh_utils.rs:58-71 | The text between "Forwarding", two spaces and the next line feed is the URL, for every such text, wide characters included. |
| TunnelText.ErrorTokenIsRead | daemon/src/ssh_utils.rs:59-75 | "ERR_" and the longest run of letters, digits and underscores behind it is the error, for every such run. |
| TunnelText.ReadingStops | daemon/src/ssh_utils.rs:57-93 | Output that is no text, a failing read and the timeout each end the reading in their own error. |
| Text.ParseDecimal | daemon/src/request.rs:104-121 | A reference as an acknowledgement prints it is parsed back, for all 32-bit references. |
| Text.ParseIsExact | daemon/src/request.rs:115-121 | A text parses as a number if and only if it is, behind an optional plus sign and any zeros, the decimal digits of that 32-bit number. |
| Text.WordsAreExact | daemon/src/request.rs:22-25 | The words of a text are exactly the words between which it has white space, and some between every two. |
| Utf8.Utf8IsExact | daemon/src/ssh_utils.rs:64-66 | Exactly the bytes of texts are taken for text. |
| Configuration.FirstIsFound | daemon/src/request.rs:15-18 | The first user of a phone number, and the first of a name, is the one that is found. |
| Status.ReadStatus | daemon/src/status.rs:36-89 | The status reading with its loop over the applications equals its specification, failures included, which `Status.StatusIsExact` decides by the raw answers. |
| Status.DeviceIsExact | daemon/src/status.rs:103-132 | The device is locked, not connected, offline or ready exactly by the raw answers of the SIM, LTE and internet probes, and its status fails exactly by an answer that cannot be had or read, with that error. |
| Status.StatusIsExact | daemon/src/status.rs:36-89 | For all probe answers: mail is reachable if and only if the SIM needs no PIN, LTE is available, the internet answers and the mail host does; the tunnel service likewise with its own host; an application by its own answer; and the reading fails only as the device does. |
| Status.ProbedStatus | daemon/src/status.rs:36-89 | Both services are unreachable unless the device is ready, and the application map's keys are the configured names. |
| Status.LookupIsOfResolved | daemon/src/request.rs:57-67 | The reachability that `open` tests is that of the application it resolves, for all probes, if and only if the configured names are distinct. |
| Tunnels.AllocatorIsExact | daemon/src/request.rs:104-105 | A new tunnel leaves all others alone if and only if reference `len()` is not live; otherwise it displaces that tunnel, releases its child, keeps the number, and a smaller reference was free. |
| Tunnels.AdoptKeepsDense | daemon/src/request.rs:104-105 | References 0 up to the number of tunnels are kept by opening, which then displaces nothing. |
| Tunnels.ReleaseKeepsDense | daemon/src/request.rs:143-151 | Of all closings of one tunnel exactly that of the highest reference keeps them dense. |
| Tunnels.ConservedCount | daemon/src/request.rs:89-105 | When every child is owned once or released, the children spawned are the tunnels and the released ones. |
| Contexts.Context.OpenTunnel | daemon/src/request.rs:30-109 | The opening code equals its specification in result, mail and new state, at each point where it can fail. |
| Contexts.Context.CloseTunnels | daemon/src/request.rs:143-151 | The removal loop equals its specification, also when a reference is unknown or a kill fails. |
| Contexts.Context.CloseCommand | daemon/src/request.rs:111-159 | Closing by reference or in bulk equals its specification. |
| Contexts.Context.HandleRequest | daemon/src/request.rs:11-208 | Every request equals its specification in result, mail, registration and new state; `Commands` says what that is for each command. |
| Contexts.Context.CleanUpExpiredTunnels | daemon/src/common.rs:99-135 | The two passes together release exactly the expired tunnels and notify in traversal order, whatever kills fail; or the first notice whose number cannot be encoded panics, with the earlier ones sent and no tunnel removed. |
| Contexts.Context.UpdateStatus | daemon/src/common.rs:94-96 | The cached status is replaced. |
| Requests.CloseAllTakes | daemon/src/request.rs:143-151 | Closing distinct live references takes out those up to and including the first failing kill, and never reports an unknown one. |
| RequestLaws.RequestKeepsInvariant | daemon/src/request.rs:11-208 | Every request, whatever fails, keeps: children owned once or released, one tunnel per user and application, the limit, configured tunnels, a probed status. |
| RequestLaws.BulkCloseSubtracts | daemon/src/request.rs:122-151 | Bulk close is refused without a tunnel of the user; otherwise it takes out exactly the user's tunnels up to the first failing kill and meets no unknown reference. |
| RequestLaws.BulkCloseLeavesOthers | daemon/src/request.rs:122-151 | After a successful bulk close exactly the other users' tunnels remain, unchanged. |
| RequestLaws.CloseByReference | daemon/src/request.rs:115-151 | The text `close` and a printed reference takes out that tunnel alone, even if the kill fails, and changes nothing if it is not live. |
| RequestLaws.CheckIsExact | daemon/src/request.rs:35-87 | The checks of `open` pass exactly when the status allows it, the application is known, there is room below the limit, and the user has no tunnel to it yet. |
| RequestLaws.RefusalsAreTrue | daemon/src/request.rs:64-87 | A refusal names a tunnel that is open for that user and application, or the user of a latest tunnel when the limit is reached; for an unreachable application it names the device status instead, which is Ready. |
| RequestLaws.OpeningIsExact | daemon/src/request.rs:11-109 | A request opens a tunnel exactly when it is a configured user's `open`, its checks pass, and ssh, its URL and the mail all succeed. |
| RequestLaws.OpenedTunnel | daemon/src/request.rs:30-109 | A tunnel is acknowledged only to a configured user's `open`, with the status allowing it, ssh's URL read and the mail sent; the tunnel and the mail are of that user and application. |
| RequestLaws.OpeningDisplaces | daemon/src/request.rs:104-105 | A successful open request leaves every other tunnel alone if and only if reference `len()` was not live. |
| RequestLaws.FailureIsAtomic | daemon/src/request.rs:29-109 | A failing request other than a close leaves status and registry alone, and releases any child it spawned. |
| RequestLaws.RebootRegistersSender | daemon/src/request.rs:172-175 | Exactly a configured user's `reboot` registers that user for the restart notification. |
| Commands.AskingIsExact | daemon/src/request.rs:22-29 | A text asks for a command exactly if its first word is that word in letters of either case. |
| Commands.NothingToDo | daemon/src/request.rs:15-27 | An unknown sender and a text without a word are refused as such and change nothing. |
| Commands.StatusRequestIsExact | daemon/src/request.rs:161-170 | Exactly a configured user's `status` whose probes can be read is acknowledged with a report; the cached status is then the reported one and nothing else changes; unread probes change nothing. |
| Commands.ShutdownIsExact | daemon/src/request.rs:188-201 | Exactly a configured user's `shutdown` is acknowledged as shutting down, with the world unchanged. |
| Commands.RebootIsExact | daemon/src/request.rs:172-186 | Exactly a configured user's `reboot` is acknowledged as rebooting, with the world unchanged and that user registered. |
| Commands.OtherWordsAreUnknown | daemon/src/request.rs:203-206 | Exactly a configured user's other first words are refused as unknown, under the word as it was written. |
| Commands.CloseWordIsExact | daemon/src/request.rs:111-151 | `close` and a word closes the tunnel of the number that the word spells and no other, also if its kill fails, and is refused as an invalid reference if it spells none. |
| Commands.CloseAloneIsBulk | daemon/src/request.rs:122-151 | `close` alone is the bulk close of the sender's tunnels that `RequestLaws.BulkCloseSubtracts` is about. |
| Commands.OwnedInOrder | daemon/src/request.rs:122-138 | Bulk close goes through the user's tunnels in the order of the traversal. |
| Commands.RefusedOpening | daemon/src/request.rs:30-87 | An `open` is refused exactly by its checks, and then changes nothing. |
| Commands.RefusalIsExact | daemon/src/request.rs:30-87 | Each refusal of an opening occurs exactly under its own condition on the raw status, the configured names and the number of tunnels, in the order of the checks. |
| Commands.CheckedOpening | daemon/src/request.rs:89-109 | An opening that passes its checks ends by ssh, by what ssh writes and by the mail, each failure with its own error and with its child released. |
| Commands.LatestIsLast | daemon/src/request.rs:70-77 | A refusal for the limit is about the last of the latest tunnels in the traversal. |
| Expiry.ExpireFilters | daemon/src/common.rs:99-135 | Expiry keeps exactly the tunnels within the timeout, unchanged, and releases the children of the others. |
| Expiry.PanicsExactly | daemon/src/common.rs:114-125 | A traversal deals with all expired tunnels, in whatever order, if and only if none of them is to be notified at a number that cannot be encoded. |
| RunLaws.RunIsSound | daemon/src/main.rs:60-132 | In every reachable state the invariant holds and no tunnel was past the timeout at the last clean-up; after a panic nothing is left. |
| RunLaws.RunConserves | daemon/src/main.rs:60-132 | In every reachable state the children spawned are the live tunnels and the released ones. |
| RunLaws.AgeIsBounded | daemon/src/main.rs:68-84 | In every reachable state a tunnel's age is at most the timeout and the time since the last clean-up, or since its creation if later. |
| RunLaws.ExpiryIsNotified | daemon/src/common.rs:114-125 | In every sound state the user of each expired tunnel is found, so that each is notified once, in turn, at a configured number for its name; all of them if and only if no number panics. |
| RunHistory.TunnelWasAllowed | daemon/src/request.rs:43-67 | Every tunnel of a reachable state was opened earlier in the run by a configured user's `open`, while the cached status was Ready with mail, tunnel service and that application reachable. |
| RunHistory.RepliesToSender | daemon/src/main.rs:86-126 | Each SMS leads to at most one reply, with its own result, to its sender, who is a configured user; to none exactly for an unknown sender or a panic. |
| ExpiryLaws.TickTells | daemon/src/common.rs:104-131 | In every sound state, the SMSs of a tick tell of the overdue tunnels in the order of the traversal, each to the first user of its own user name; the first whose number is odd and longer than twelve ends the daemon, and there is one if and only if not all are told of. |
| ExpiryLaws.SmsStemsFrom | daemon/src/main.rs:68-126 | Every SMS of every run either answers the configured user whose message it comes from, or tells the first user of an overdue tunnel's user name of its closing. |
| ExpiryLaws.RunTellsOfClosed | daemon/src/common.rs:104-134 | In every run, the SMSs of a tick that the daemon survives and the tunnels that it takes out correspond one to one. |
| ExpiryLaws.HaltsExactly | daemon/src/main.rs:60-135 | In every sound state exactly these end the daemon, and every tunnel with it: a reading that panics, an overdue tunnel that cannot be told of, and an opening for which neither a URL nor ssh's report can be read. |
| ExpiryLaws.TicksKeepDistance | daemon/src/main.rs:62-68 | In every run a tick comes no earlier than the refresh period after the end of the event before it. |
| ExpiryLaws.TicksTakeTime | daemon/src/main.rs:62-84 | Every run takes at least as many refresh periods as it has ticks. |
| ExpiryLaws.LastCleanUp | daemon/src/common.rs:99-102 | While the daemon runs, the last clean-up is the last tick, at the time that it took as current. |
| Reception.NoiseIsSilent | daemon/src/main.rs:94-130 | In every run of failed readings and of notifications of any PDUs from unknown senders, however those are cut into reads, nothing is answered; the daemon keeps running, with nothing changed, if and only if no PDU that is heard panics, and otherwise every tunnel is released. |
| Reception.DeliveryKills | daemon/src/sms_utils.rs:105-114 | Among deliveries of any coding the PDUs that do so are those that are heard and whose data, read as septets, are cut at their length. |
| Reception.MessageKills | daemon/src/sms_utils.rs:105-114 | Among those in the default alphabet they are those that are heard and whose septet count lies inside a character. |
| Reception.NoiseHasRun | daemon/src/main.rs:60-130 | Every such sequence of readings and notifications has such a run, from every running state. |
| Reception.PanicEndsDaemon | daemon/src/sms_utils.rs:87-114 | Whatever its sender, a PDU that panics can only halt the running daemon if one read holds its notification, and otherwise leaves the wait to what comes next. |
| Loop.Daemon.Run | daemon/src/main.rs:60-135 | The loop over any finite run equals the run's specification in state, in the SMSs sent, and in the users registered, panics while notifying included; `ExpiryLaws` and `RunHistory` say whom those SMSs go to. |
| Displacement.OneTunnelNeverDisplaces | daemon/src/request.rs:70-105 | With a limit of at most one, or one user and application only whose `open` can arrive, no run displaces a tunnel. |
| Displacement.TwoTunnelsDisplace | daemon/src/request.rs:70-105 | With a limit of at least two or none, and two different openings that can arrive, some run displaces a live tunnel. |
| Displacement.DisplacementIsPossible | daemon/src/request.rs:70-105 | Some run displaces a live tunnel if and only if the configuration allows more than one tunnel, counting users from whom and applications for which an `open` can arrive. |
| Starvation.NoTickNoExpiry | daemon/src/main.rs:62-131 | Runs without a tick make tunnels older than every bound if and only if the limit is not zero and an `open` that can arrive names a configured application, whatever the timeout and the refresh period. |
| Starvation.OneCauseIsEnough | daemon/src/main.rs:62-131 | Behind the opening, messages alone or failed readings alone do so, each within the refresh period unless that is zero. |
| Undeliverable.NoticePanicIsPossible | daemon/src/common.rs:114-125 | Some run ends in a panic over an expiry notice if and only if the limit is not zero and a tunnel can be opened by a user to whose name the first user has a number that cannot be encoded. |
| Undeliverable.DistinctNamesNeverPanic | daemon/src/common.rs:114-125 | With distinct user names no run does. |
| Undeliverable.RepliesNeverPanic | daemon/src/main.rs:112-116 | The number of every reply of a run can be encoded. |
| Init.SettleStatus | daemon/src/init.rs:64-104 | The start-up loop ends, by the unlocking unused and the retries left, and equals its specification in result and actions. |
| Init.SettlingIsCourse | daemon/src/init.rs:64-104 | For all status answers every action of start-up is the one that an independent protocol has next, nothing is next behind the last, and the result is that of the last action. |
| Init.SettlingFailsExactly | daemon/src/init.rs:64-104 | Start-up fails if and only if a status reading that it takes cannot be read, or a PIN verification that it takes is refused; otherwise it ends with a status, also with no retries left. |
| Init.InitialisationIsBounded | daemon/src/init.rs:64-104 | For all status answers: at most one PIN verification, at most as many sleeps as retries and two status readings more, and an ending without error only with the device ready, still locked after one verification, or not connected after as many sleeps as retries, on a status that probes gave. |
| Init.BoundIsReached | daemon/src/init.rs:64-104 | Some answers take exactly two status readings more than retries. |
| Listener.RegisterFile.RegisterInitListener | daemon/src/init.rs:136-154 | A registration replaces the content, empties it when the write fails, and leaves it when the file cannot be opened. |
| Listener.RegisterFile.LookupInitListener | daemon/src/init.rs:156-187 | A lookup finds the user of the content, if readable, and removes the file, if it can, in any case. |
| Listener.RegisterFile.Start | daemon/src/init.rs:67-125 | A boot looks the register up exactly if it completes SMS setup, and panics exactly if it then gets to encode a number that cannot be encoded. |
| Listener.BootIsExact | daemon/src/init.rs:106-128 | A boot looks the register up exactly if it settles ready or with the internet unreachable and SMS setup succeeds; how it ends follows from the status settled on and SMS setup alone. |
| Listener.BootPanics | daemon/src/init.rs:111-119 | A boot panics exactly over a registered user whose number is odd and longer than twelve, with a readable file and an open port. |
| Listener.BootUsesRegister | daemon/src/init.rs:156-187 | A boot that looks the register up notifies the first user of its name, if it can be read, and removes it in any case in which it can. |
| Listener.RegistrationFillsRegister | daemon/src/init.rs:136-154 | After a registration the register holds the name, nothing if the write failed, and what it held if it could not be opened. |
| Listener.BootNotifiesPending | daemon/src/init.rs:106-187 | With distinct user names and succeeding file operations a boot notifies the user registered last if it is the first since to complete SMS setup; any other boot leaves the registration. |
| Listener.NotificationsAreEarned | daemon/src/init.rs:106-187 | In every history notifications do not exceed registrations and failed removals together. |
| Lifetimes.NotificationStemsFromReboot | daemon/src/request.rs:172-175 | Over all boots and runs in turn, every notification of a boot stems from a `reboot` that a configured user of that name sent in an earlier run, but for an emptied register and an empty user name. |
| Lifetimes.RegistersExactly | daemon/src/request.rs:172-175 | A step of a run registers exactly the configured user whose `reboot` it receives. |
| Lifetimes.RebootIsNotified | daemon/src/init.rs:106-187 | With distinct names and succeeding file operations, the user of the last `reboot` among the events of a run is notified by the boot after it, if that completes SMS setup. |
| Listener.FailedRemovalRepeats | daemon/src/init.rs:183-186 | When the file cannot be removed one registration is notified twice. |

## Left out

- Serial port opening, sockets, DNS, pings, `uqmi`, `sendmail`, `ssh`, `reboot` and `poweroff`: only their results are inputs.
- The internet ping of a tick and the reboot it may spawn: they change neither the registry nor the loop.
- Tokio scheduling and wall-clock timeouts: a timeout is one of the possible outcomes.
- A clock that goes back, on which the clean-up panics: time is assumed not to decrease.
- Sends that fail otherwise than by a panic: runs and boots contain the attempts to send.
- Reply wording: replies are values that name what the text says, so that the 140-byte limit is proved for `send_sms` but not applied to replies.
- Deliveries with a user-data header or with 8-bit data: when they panic is stated, but not when their text is received as sent.
- Addresses of other lengths: the layout that is written has the lengths that the slices expect, while the reader itself is modelled, and its panics are stated, for every text.
- Reads that end inside a character: the code refuses them, as one of the failed readings.
- RunHistory.Openable: counts what any bytes of the modem can carry; a modem that writes the indication as TS 27.005 has it carries two septets less.
- TunnelOutput.SplitReadsUrl: claimed for ASCII output, as a read that ends inside a wider character is refused as unreadable, which the reader itself models.
- TunnelOutput.EverySplitReadsUrl: claimed for ASCII output, for the same reason.
- TunnelOutput.EverySplitWithoutUrl: claimed for ASCII output, for the same reason.
- Indication.NotificationIsReceived: the text before a notification in its read has no plus sign, so that no earlier match can begin there.
- Transmissions.TransmissionIsHeard: the text around a notification, the parameters of its indication and its PDU have no plus sign, for the same reason; `Reception.NoiseIsSilent` is about such notifications.
- Error output of the ssh process, beyond whether reading it panics.
- A registration written only in part.
- Configuration and JSON parsing, logging, daemon forking, LuCI views and packaging.
