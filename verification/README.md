# Verified model of the NekokoLPA2 core protocols

The modules model five independent parts of the repository and prove what each of them is for.

- **SMS codec** (`Bits`, `Septets`, `Segmentation`, `Gsm7`, `Utf16`, `SmsTypes`, `SmsTime`, `SmsAddress`, `SmsSubmit`,
  `SmsDecode`, `SmsRoundTrip`, `SmsReceived`, `SmsHeader`, `SmsRefused`): building SMS-SUBMIT units for a text and decoding any PDU
  (3GPP TS 23.040 and TS 23.038). The loops are proved against a bit stream and a segmentation
  specification; the main results are the whole-message round trips, and that no unit cut short is ever read
  as another.
- **VoWiFi session engine** (`MaintenanceCycle`, `ReconnectLoop`, `RedirectNames`, `EpdgResolution`, `EngineEvents`): transition systems whose steps
  are the critical sections and channel operations of the program, with a class per machine whose methods
  are those steps, and lemmas over all runs.
- **Smart-card reader plugin** (`CcidSessions`): calls, platform replies and queued blocks in every interleaving.
- **ASN.1 generator output** (`Asn1Tags`, `Asn1Primitives`, `Asn1Tlv`, `Asn1Sequence`, `Asn1RoundTrip`): the emitted
  helpers, the parser they feed and the SEQUENCE scheme as an interpreter over a schema (X.690).
- **Card files and recovery policy** (`CardTlv`, `RecoveryPolicy`).

`Wrappers` and `Text` hold shared shapes and string functions. Library services (which characters print,
national tables, character-set detection, IP address syntax, case folding), the clock, random octets and the
outcomes of tunnel, IMS and card operations are parameters or nondeterministic events.

Where the code does less than one might expect, the model follows the code and the condition is exact:

- A UCS-2 segment is read back only if it survives byte-order-mark removal, the replacement-character test and the
  readability test (`Ucs2MessageArrives`); a text that begins with U+FEFF never arrives (`MarkedTextIsLost`).
- An explicitly tagged class in a SEQUENCE is written inside a wrapper but decoded from that wrapper. The exact
  condition under which it is read back is `Survives`; certificate extensions do not meet it (`ExtensionsAreLost`).
- Redirects keep the demanded peer identity in every run from a resolved configuration but one kind: no certificate
  hostname and a first template candidate in brackets with space inside (`ResolvedRunsKeepIdentity`,
  `UnsettledIdentityMoves`). Resolution trims names, so a hostname of nothing but space does not occur.
- The request and recovery revisions are 64-bit counters; freshness holds up to their wrap-around.

## Classes

Each class holds the program's fields; `View()` is the state of the transition system, and every method's contract is
the step that the run lemmas reason about.

- `MaintenanceCycle.Cycle`: the maintenance loop of a cycle, mobilecore/engine.go:472-634 and mobilecore/connection_check.go:32-91.
- `ReconnectLoop.Session`: the reconnect loop of a run, mobilecore/engine.go:255-365.
- `EngineEvents.Engine`: Start, Stop, serving's end and the guarded callbacks, mobilecore/engine.go:110-379,
  mobilecore/connection_diagnostics.go:48-179 and mobilecore/progress.go:10-19.
- `CcidSessions.CcidPlugin`: method calls, replies and blocks, local_packages/ccid/ios/Classes/CcidPlugin.swift:76-231.
- `RecoveryPolicy.RecoveryState`: the whole struct, local_packages/proletarius_vowifi/ios/Classes/VowifiRecoveryPolicy.swift:5-72.
- `SmsAddress.PduCursor` and `Asn1Tlv.Reader`: read positions, mobilecore/internal/device/sms_pdu.go:565-586 and
  lib/models/asn1/simple_reader.dart:4-70.

## Model

| member | source | states |
|---|---|---|
| SmsRoundTrip.Gsm7MessageArrives | mobilecore/internal/device/sms_pdu.go:81-130 | Every NUL-free, non-empty text in the GSM 7-bit alphabet that splits into at most 255 parts arrives: each stamped part decodes without error to the normalised recipient, its message reference, its place among the parts exactly when there are several, and the texts read concatenate to the original; for every alphabet and every reference. |
| SmsRoundTrip.Ucs2MessageArrives | mobilecore/internal/device/sms_pdu.go:81-130 | Any other such text arrives if and only if every segment survives: it does not start with U+FEFF or U+FFFE, contains no U+FFFD and is readable. |
| SmsRoundTrip.RefusedExactlyWhenTooLong | mobilecore/internal/device/sms_pdu.go:208-270 | Preparation refuses a text as too long exactly when it exceeds one part and no split that respects the part limit and keeps escape and surrogate pairs together has at most 255 parts. |
| SmsRoundTrip.MarkedTextIsLost | mobilecore/internal/device/sms_pdu.go:999-1020 | In the standard alphabet no text that begins with U+FEFF arrives, whoever it is sent to. |
| SmsRoundTrip.LoneMarkIsLost | mobilecore/internal/device/sms_pdu.go:81-130 | A concrete one: the mark alone is accepted for every number, sent in one part, and does not arrive. |
| SmsReceived.ReceivedMessage | mobilecore/internal/device/sms_pdu.go:638-670 | A DELIVER unit from a name or a number, with any protocol identifier and timestamp, and GSM 7-bit text behind an optional concatenation header is read back in every field. |
| SmsReceived.ReceivedUcs2Message | mobilecore/internal/device/sms_pdu.go:638-670 | The same with UCS-2 text whose segment survives; any other is refused, reported in another encoding or shorter. |
| SmsReceived.SubmittedMessage | mobilecore/internal/device/sms_pdu.go:672-712 | A SUBMIT unit from any sender, with any reference, protocol identifier and validity period of whichever format its first octet announces, is read back in every field. |
| SmsReceived.StatusReportRead | mobilecore/internal/device/sms_pdu.go:714-764 | A status report is read back: reference, recipient, the time it was handed over and the time it was discharged, in that order, and the outcome its status octet stands for by the ranges of TS 23.040 section 9.2.3.15, whatever optional octets follow. |
| SmsReceived.ServiceCentreRead | mobilecore/internal/device/sms_pdu.go:588-612 | The number of the service centre is read from in front of any unit, whatever becomes of the unit. |
| SmsRefused.NothingReadBehind | mobilecore/internal/device/sms_pdu.go:588-764 | Any PDU that is decoded, or refused for another reason than its length, comes out the same with any octets behind it. |
| SmsRefused.DeliverCutShort | mobilecore/internal/device/sms_pdu.go:638-670 | A DELIVER unit cut short at any point is refused as truncated, never read as a shorter message. |
| SmsRefused.SubmitCutShort | mobilecore/internal/device/sms_pdu.go:672-712 | So is a SUBMIT unit, inside its validity period too. |
| SmsRefused.ReportCutShort | mobilecore/internal/device/sms_pdu.go:714-749 | And a status report. |
| SmsRefused.AcceptedIsOfAKind | mobilecore/internal/device/sms_pdu.go:588-636 | Whatever is decoded is one of the three units, behind a service-centre address of the stated length, and reported as what its first octet says. |
| SmsRefused.BrokenTextRefused | mobilecore/internal/device/sms_pdu.go:530-555 | A delivered GSM 7-bit message is refused as text exactly when an escape in it ends the text or stands before a code outside the extension table. |
| SmsRefused.BrokenNameRefused | mobilecore/internal/device/sms_pdu.go:766-810 | And an alphanumeric sender is refused as an address in exactly that case. |
| SmsRefused.HeaderMustFit | mobilecore/internal/device/sms_pdu.go:855-875 | A user data header is refused exactly when the announced data is empty or shorter than the header says it is. |
| SmsRefused.MarkedDataIsText | mobilecore/internal/device/sms_pdu.go:1022-1051 | Octets of another or an unknown alphabet behind a byte order mark of either order are read as that UTF-16 text, provided that it reads well. |
| SmsRefused.Ucs2TextIsReadable | mobilecore/internal/device/sms_pdu.go:999-1065 | What is reported as UCS-2 text came in whole units, holds no replacement character, and has at most one character in ten that neither prints nor is a line break or a tab. |
| SmsHeader.FirstConcatenationCounts | mobilecore/internal/device/sms_pdu.go:1112-1138 | A concatenation element, with a reference of one octet or of two, the high one first, is found behind any other elements and in front of any octets. |
| SmsHeader.TablesSelected | mobilecore/internal/device/sms_pdu.go:966-981 | Element 0x24 selects a language's single shift table and 0x25 its locking shift table, also beside other elements. |
| SmsHeader.PortsAddressed | mobilecore/internal/device/sms_pdu.go:1096-1110 | Ports are addressed exactly when some element of a header addresses them. |
| SmsHeader.PortDataKept | mobilecore/internal/device/sms_pdu.go:1022-1051 | Eight-bit data for a port is never taken for text; its octets can be read back from what is reported. |
| SmsHeader.GeneralCoding | mobilecore/internal/device/sms_pdu.go:936-964 | In the general coding groups bits 2 and 3 number the alphabet whatever the class, meaning and deletion bits say, unless the text is compressed. |
| SmsHeader.OtherGroups | mobilecore/internal/device/sms_pdu.go:936-964 | The message waiting, data coding and reserved groups of TS 23.038 section 4. |
| SmsHeader.CountedSenderRead | mobilecore/internal/device/sms_pdu.go:766-822 | A sender whose length counts characters is read in full exactly where set padding bits rule out the standard reading. |
| SmsTime.TimestampRoundTrip | mobilecore/internal/device/sms_pdu.go:1140-1191 | Every time of the years 1990 to 2089 in a zone of whole quarters up to 14 hours is read back from its seven octets. |
| SmsTime.OnlyExpressible | mobilecore/internal/device/sms_pdu.go:1140-1191 | Nothing else is ever read from seven octets. |
| SmsTime.DecodeTimestamp | mobilecore/internal/device/sms_pdu.go:1140-1191 | The loop over the components: the time, or none for a bad digit, zone or component. |
| SmsRoundTrip.PartOutcome | mobilecore/internal/device/sms_pdu.go:672-712 | Decoding a stamped SUBMIT unit reaches its user data with recipient, reference and coding scheme recovered, whatever the number's length and prefix. |
| SmsRoundTrip.Gsm7DataRoundTrip | mobilecore/internal/device/sms_pdu.go:844-922 | GSM 7-bit user data behind any part header is decoded to its text, the bit alignment after the header included. |
| SmsRoundTrip.Ucs2DataRoundTrip | mobilecore/internal/device/sms_pdu.go:844-922 | UCS-2 user data is decoded to its text if the segment survives, and otherwise fails, changes encoding or loses units. |
| SmsRoundTrip.HeaderMeans | mobilecore/internal/device/sms_pdu.go:342-344 | The concatenation header is read back as one element with reference, total and sequence, selecting no language and no port. |
| SmsRoundTrip.StampParts | mobilecore/engine.go:705-711 | Part i is stamped with seed+i modulo 256 in its second octet and nothing else changes. |
| SmsRoundTrip.ReferencesDistinct | mobilecore/engine.go:708-710 | The parts of one message never share a message reference. |
| SmsSubmit.PrepareSubmitTpdus | mobilecore/internal/device/sms_pdu.go:81-119 | Fails exactly for an invalid recipient, an empty text, a NUL, more than 255 parts or a failed random source; otherwise returns each part's unit, so no per-part length or header check ever fires. Of each unit: the type bits are 01, the status report request (TP-SRR) is set, no validity period follows, the header bit is set exactly when there are several parts, the type octet is that of the number, and the coding scheme that of the text. |
| SmsSubmit.PrepareParts | mobilecore/internal/device/sms_pdu.go:147-297 | The parts of a text, in order: text mode for a single part the modem can encode itself, otherwise a PDU each. |
| SmsSubmit.UnitRequests | mobilecore/internal/device/sms_pdu.go:420-437 | Every unit built asks for a status report and rejects no duplicates, states no validity period, carries the header bit exactly when it has a header, and has the octets of a national or international number and of its alphabet. |
| SmsSubmit.EncodeSubmitPdu | mobilecore/internal/device/sms_pdu.go:404-466 | The PDU of a part or the error that refuses it, field by field as TS 23.040 section 9.2.2.2 lays it out. |
| SmsSubmit.PartsFit | mobilecore/internal/device/sms_pdu.go:208-296 | Every part of every text fits its transfer unit, header included, and is not empty for a non-empty text. |
| SmsSubmit.UserDataFits140 | mobilecore/internal/device/sms_pdu.go:438-460 | User data takes at most 140 octets for every part of every text. |
| SmsSubmit.CanSendDirect | mobilecore/internal/device/sms_pdu.go:385-394 | True exactly when each character is its own unescaped single-septet ASCII code. |
| SmsSubmit.UnitOfPart | mobilecore/internal/device/sms_pdu.go:95-117 | A part sent in text mode and one sent as a PDU come to the same transfer unit. |
| Septets.PackSeptets | mobilecore/internal/device/sms_pdu.go:494-510 | The shift-and-or loop yields the stream form: bit j of septet i at startBit+7i+j, zero elsewhere, in the minimum number of octets. |
| Septets.UnpackSeptets | mobilecore/internal/device/sms_pdu.go:512-528 | Fails exactly when the bits asked for do not exist, and otherwise reads septet i from stream bits startBit+7i on. |
| Septets.UnpackInvertsPack | mobilecore/internal/device/sms_pdu.go:494-528 | Unpacking packed septets returns them for every bit offset, even with a header copied over the front. |
| Septets.PackedLayout | mobilecore/internal/device/sms_pdu.go:442-453 | Copying a header over the front changes no bit from the header's end on, and leaves the padding after the last septet zero. |
| Segmentation.GreedyIsLegal | mobilecore/internal/device/sms_pdu.go:299-332 | Greedy splitting makes only allowed cuts and only non-empty parts within the limit. |
| Segmentation.LegalSplitIsLossless | mobilecore/internal/device/sms_pdu.go:299-332 | The parts of any legal split concatenate to the input. |
| Segmentation.GreedyIsOptimal | mobilecore/internal/device/sms_pdu.go:299-332 | No legal split of the same input has fewer parts than the greedy one. |
| Segmentation.TooLongExactly | mobilecore/internal/device/sms_pdu.go:208-216 | The greedy split exceeds a number of parts exactly when every legal split does. |
| Gsm7.SplitGsm7 | mobilecore/internal/device/sms_pdu.go:299-313 | The loop computes the greedy split that keeps escape pairs together. |
| Gsm7.StandardAlphabetIsValid | mobilecore/internal/device/sms_pdu.go:20-64 | The embedded tables have 128 basic characters and extension codes that are septets other than the escape. |
| Gsm7.BuildEncoder | mobilecore/internal/device/sms_pdu.go:20-64 | The encoder built from the tables knows exactly the alphabet's characters and codes each so that it reads back. |
| Gsm7.EncodeGsm7 | mobilecore/internal/device/sms_pdu.go:373-383 | Succeeds exactly when every character is in the alphabet, with the concatenated codes. |
| Gsm7.DecodeGsm7 | mobilecore/internal/device/sms_pdu.go:530-555 | The text up to the first fault and whether there was one. |
| Gsm7.DecodeUndoesEncode | mobilecore/internal/device/sms_pdu.go:373-383 | Decoding the septets of any encodable text gives the text, and they are whole characters. |
| Gsm7.DecodedSegments | mobilecore/internal/device/sms_pdu.go:299-313 | Segments of any legal split decode one by one to the whole text. |
| Utf16.SplitUcs2 | mobilecore/internal/device/sms_pdu.go:315-332 | The loop computes the greedy split that keeps surrogate pairs together. |
| Utf16.EncodeUnits | mobilecore/internal/device/sms_pdu.go:334-340 | Big-endian octets of the units. |
| Utf16.DecodeUtf16Bytes | mobilecore/internal/device/sms_pdu.go:999-1020 | The text of a UCS-2 payload, byte order mark honoured, and whether it is acceptable. |
| Utf16.DecodedSegments | mobilecore/internal/device/sms_pdu.go:315-332 | Segments of any legal split decode one by one to the whole text. |
| Utf16.PayloadRoundTrip | mobilecore/internal/device/sms_pdu.go:999-1020 | A segment's octets are read back, and accepted, if and only if the segment survives. |
| Utf16.ReadableText | mobilecore/internal/device/sms_pdu.go:1053-1065 | True exactly when at least nine tenths of the characters print or are line breaks or tabs. |
| SmsAddress.NormalizeRecipient | mobilecore/internal/device/sms_pdu.go:346-371 | Accepts exactly the strings that, trimmed and stripped of separators, are an optional plus and 1 to 20 digits, and returns that number. |
| SmsAddress.NumberIsNormal | mobilecore/internal/device/sms_pdu.go:346-371 | Normalising changes nothing in a number. |
| SmsAddress.EncodeSemiOctets | mobilecore/internal/device/sms_pdu.go:468-492 | Refuses exactly empty and non-digit input; otherwise digits in swapped half-octets with filler. |
| SmsAddress.DecodeNumericAddress | mobilecore/internal/device/sms_pdu.go:824-842 | The first decimal half-octets, filler skipped, with a plus for international numbers. |
| SmsAddress.NumberRoundTrip | mobilecore/internal/device/sms_pdu.go:468-492 | Every number is read back from its address octets. |
| SmsAddress.HasZeroGsm7Padding | mobilecore/internal/device/sms_pdu.go:812-822 | True exactly when there is a septet and every bit after the last one is zero. |
| SmsAddress.ReadTpAddress | mobilecore/internal/device/sms_pdu.go:766-810 | The address at the cursor and how far the cursor advances, or the error. |
| SmsAddress.SenderRoundTrip | mobilecore/internal/device/sms_pdu.go:766-810 | Every alphanumeric sender packed as TS 23.040 section 9.1.2.5 requires, with a length that fits its octet, is read by the standard branch, in full, consuming exactly ceil(7n/8) octets. |
| SmsDecode.ParseConcatHeader | mobilecore/internal/device/sms_pdu.go:1112-1138 | The first concatenation element of a header, 8-bit or 16-bit, or none. |
| SmsDecode.UserDataHeaderLanguage | mobilecore/internal/device/sms_pdu.go:983-997 | The language a header selects under an identifier, or none. |
| SmsDecode.HasApplicationPortAddressing | mobilecore/internal/device/sms_pdu.go:1096-1110 | Whether a header addresses ports or is malformed. |
| SmsDecode.DecodeGsm7WithHeader | mobilecore/internal/device/sms_pdu.go:966-981 | The default alphabet unless the header selects a national table. |
| SmsDecode.DecodeTextBytes | mobilecore/internal/device/sms_pdu.go:1022-1051 | Byte order mark first, then detection; never for port-addressed or empty payloads. |
| SmsDecode.DecodeUserData | mobilecore/internal/device/sms_pdu.go:844-922 | User data decoded, each error where the program raises it, with the fields set by then. |
| SmsDecode.DecodeSubmitPdu | mobilecore/internal/device/sms_pdu.go:672-712 | SMS-SUBMIT decoded field by field. |
| SmsDecode.DecodeDeliverPdu | mobilecore/internal/device/sms_pdu.go:638-670 | SMS-DELIVER decoded field by field. |
| SmsDecode.DecodeStatusReportPdu | mobilecore/internal/device/sms_pdu.go:714-749 | SMS-STATUS-REPORT decoded field by field. |
| SmsDecode.DecodePdu | mobilecore/internal/device/sms_pdu.go:588-636 | Any octets: the service-centre number, then the right decoder, or the error. |
| SmsDecode.DecodeTpdu | mobilecore/internal/device/sms_pdu.go:123-130 | A bare unit decoded as behind an empty service-centre address. |
| MaintenanceCycle.RequestIsHeard | mobilecore/connection_check.go:60-91 | In every run an accepted request leaves the check wanted and counted, and its token in the channel unless a check was wanted already. |
| MaintenanceCycle.RequestIsServed | mobilecore/connection_check.go:32-91 | In every run, wherever the check of an accepted request is no longer wanted though the cycle neither failed nor ended since, a successful operation that noted its revision after the request was settled in between (or one with 2^64 requests accepted during it). |
| MaintenanceCycle.DemandIsServed | mobilecore/engine.go:551-588 | When the renewal timer or the service demands a registration, one is owed, started or granted at every later point of every run at which the cycle is still healthy. |
| MaintenanceCycle.TokenStartsCheck | mobilecore/engine.go:560-563 | A token drained from an idle healthy cycle starts a check. |
| MaintenanceCycle.CheckSparesRegistration | mobilecore/engine.go:517-542 | What is started is one operation of the latest revision; it probes rather than registers exactly when it serves a check, probing is enabled and more than a minute of the binding is left. |
| MaintenanceCycle.FailureIsPublished | mobilecore/engine.go:594-610 | A failed operation breaks the cycle; publishing that drops the check and its token, and the loop returns at once exactly when no call is active. |
| MaintenanceCycle.CallKeepsLoop | mobilecore/engine.go:601-625 | A call that outlives a failure keeps the loop until it is seen to have ended. |
| MaintenanceCycle.SettlingGoesOn | mobilecore/engine.go:585-592 | After a settled result a pending renewal goes first, then a check that is still wanted, and otherwise the loop waits. |
| MaintenanceCycle.RenewalMargin | mobilecore/engine.go:847-859 | The margin before expiry is a quarter of the lifetime up to five minutes; lifetimes count for at most a day; without one an hour is assumed. |
| MaintenanceCycle.NoCheckLost | mobilecore/connection_check.go:60-91 | In every state of every run a wanted check of a live, unbroken cycle has its token in the channel, an operation under way or a result being settled. |
| MaintenanceCycle.ClearedOnlyByFreshCheck | mobilecore/connection_check.go:32-46 | Outside failure and teardown a check is cleared only by settling a successful operation whose revision was noted after the latest accepted request (or 2^64 requests earlier). |
| MaintenanceCycle.TokenNotDiscarded | mobilecore/connection_check.go:32-46 | Whenever a token disappears from a live cycle, an operation is under way or no check is wanted. |
| MaintenanceCycle.NeverTwoOperations | mobilecore/engine.go:503-541 | At most one operation or unread result exists, so the one-slot result channel never blocks. |
| MaintenanceCycle.RegistrationKept | mobilecore/engine.go:547-588 | While healthy, the renewal timer is armed or fired, a registration is under way, or a renewal is pending behind an operation; a timer armed in a live binding goes off within it. |
| MaintenanceCycle.NothingAfterFailure | mobilecore/engine.go:589-610 | After the first published failure no operation exists and no request is accepted for the rest of the cycle. |
| MaintenanceCycle.RenewalWithinBinding | mobilecore/engine.go:847-859 | For every positive grant the delay is at least a second and within the freshness window, strictly for two seconds or more. |
| MaintenanceCycle.ProbeWithinBinding | mobilecore/connection_check.go:21-24 | An OPTIONS-only probe that keeps its 60-second deadline ends inside the binding. |
| MaintenanceCycle.LapsedProbeSettlesNothing | mobilecore/engine.go:575-578 | An OPTIONS answer taken after the binding lapsed clears nothing and starts a registration. |
| MaintenanceCycle.CheckNotStuck | mobilecore/engine.go:547-588 | A pending check always has an enabled step of the loop or its worker. |
| MaintenanceCycle.CheckComesCloser | mobilecore/engine.go:547-588 | Each such step settles the check or strictly lowers a bound that never exceeds twelve. |
| MaintenanceCycle.QuietRunAnswersCheck | mobilecore/engine.go:547-588 | Thirteen such steps in a row answer the check. |
| ReconnectLoop.AttemptsBounded | mobilecore/engine.go:314-364 | A run in which R cycles registered and S ended without an error or a registration makes at most 3(R+S+1) attempts and accepts at most three redirects, however long it is; S is zero when every cycle ends with an error, as the cycle function always does. |
| ReconnectLoop.RunsEndProperly | mobilecore/engine.go:256-274 | A finished run is stopped if cancelled, otherwise failed and terminal; retrying is always cleared. |
| ReconnectLoop.NextAttemptDetermined | mobilecore/engine.go:320-358 | In every run each attempt is determined by the attempt before it and the turn between them: a reported redirect is followed to its target from candidate zero; otherwise the index is the earlier plus one if and only if the error is present and not permanent, the stage is the transport or IKE_SA_INIT and a further candidate is listed, and unchanged in every other case. |
| ReconnectLoop.RunGoesOnExactly | mobilecore/engine.go:326-364 | A run that is not cancelled ends in a turn exactly when its redirect is not followed, its error is permanent, or it is the third failure in a row. |
| ReconnectLoop.FailuresAreStreak | mobilecore/engine.go:872-890 | In every run the failure count is the number of unregistered failures at the end of the turns so far. |
| ReconnectLoop.PermanentAfterClassify | mobilecore/engine.go:891-905 | A cancellation that is not the owner's is not permanent unless its text is; every other marked, authentication or policy error is. |
| ReconnectLoop.DelaysDouble | mobilecore/engine.go:872-890 | The delay doubles with each failure in a row from two seconds; it is two after a registered cycle and one after a cycle without an error. |
| RedirectNames.RedirectNamesHost | mobilecore/engine_carrier_capabilities.go:90-109 | A redirect may name a numeric address, or a host name of at most 253 characters and an optional final dot: letters, digits, hyphens and dots, no hyphen at an end or beside a dot, no dot at an end or beside another, a dot among any 64 characters in a row. |
| ReconnectLoop.OnlyPermittedDestinations | mobilecore/engine.go:317-349 | Every address dialled is the resolved ePDG, a listed candidate taken in order without skipping, or an accepted redirect target; a custom or overridden address is never left; every target was reported, authenticated and valid, in some turn. |
| ReconnectLoop.TargetsReported | mobilecore/engine_carrier_capabilities.go:73-88 | Every target a run accepts is the trimmed, valid address of an authenticated redirect that one of its turns reported. |
| ReconnectLoop.RedirectKeepsIdentity | mobilecore/engine_carrier_capabilities.go:22-25 | An accepted redirect keeps the demanded identity if and only if the certificate hostname is not blank, or is empty and the redirecting name is non-empty and trimmed. |
| ReconnectLoop.RedirectsKeepIdentity | mobilecore/engine_carrier_capabilities.go:73-88 | In every run from a settled start (configured address, certificate hostname, or names without space around them) each attempt after a redirect demands the identity of the attempt before. |
| EpdgResolution.ExpandedIsClean | mobilecore/internal/vowifi/carrier/embedded_registry.go:263-283 | Whatever a carrier bundle holds, the candidates taken from it are trimmed and not empty and its hostname is trimmed or empty. |
| EpdgResolution.OtherProfilesAreClean | mobilecore/internal/vowifi/carrier/user_template.go:84-120 | So are the standard profile and the built-in template's. |
| EpdgResolution.ExpandBundle | mobilecore/internal/vowifi/carrier/embedded_registry.go:263-283 | The loop lists address and candidates once each, the hostname standing in when there are none. |
| EpdgResolution.BundleNamesKept | mobilecore/internal/vowifi/carrier/embedded_registry.go:263-283 | A bundle's address comes first and its candidates are exactly the address and the stated ones, trimmed, without blanks, each once; the certificate hostname stands in when there are none. |
| EpdgResolution.AddressPriority | mobilecore/effective_config.go:208-236 | A requested address goes before an overriding one and both before the profile; either is the only destination, and a profile with candidates offers them all, in order. |
| EpdgResolution.ResolvedIsSettled | mobilecore/effective_config.go:208-236 | A resolved start is settled exactly when its address was configured, a certificate hostname is given, or the address has no space around it. |
| EpdgResolution.UnbracketedIsPlain | mobilecore/effective_config.go:723-729 | Every resolved start whose template address carries no brackets is settled. |
| EpdgResolution.ResolvedRunsKeepIdentity | mobilecore/effective_config.go:208-236 | No run from a resolved start lets a redirect change the demanded identity, unless brackets enclose space in the first candidate and no certificate hostname is given. |
| EpdgResolution.SpaceInBrackets | mobilecore/effective_config.go:723-729 | The family of inputs left: a bracketed first candidate with space inside at an end. |
| EpdgResolution.UnsettledIdentityMoves | mobilecore/engine_carrier_capabilities.go:73-88 | From such a start the first accepted redirect does change the demanded identity. |
| EngineEvents.DiagnosticsAreCurrent | mobilecore/connection_diagnostics.go:48-76 | Whatever interleaving, a stored diagnostic belongs to the current attempt of the latest run, and none is left after Stop. |
| EngineEvents.NoneSurvivesStop | mobilecore/engine.go:155-176 | Nothing between Stop and the next Start brings a diagnostic back, late callbacks included. |
| EngineEvents.StepInv | mobilecore/connection_diagnostics.go:153-179 | Every host call, phase change, progress report and callback keeps that invariant. |
| EngineEvents.RunStaysUntilItEnds | mobilecore/engine.go:256-274 | A run that serves is never replaced, so an attempt of it is refused only for cancellation. |
| EngineEvents.AuthDiagnosticStored | mobilecore/connection_diagnostics.go:153-179 | A diagnostic of a known outcome, delivered for the current attempt of a live run in its IKE phase, is stored and stays until a new attempt, start, stop or end puts it away. |
| EngineEvents.AttemptBegins | mobilecore/engine.go:367-379 | A live run's new attempt is the next one, starts at the transport and has its policy recorded; its IKE progress moves the stage. |
| EngineEvents.PhaseShown | mobilecore/progress.go:10-19 | The current run's phase is shown, and any but a failure takes back that it will be retried or is final; another run's phase changes nothing. |
| EngineEvents.StartBegins | mobilecore/engine.go:136-150 | After any events that leave the engine idle a start makes a live run with nothing left of earlier ones. |
| EngineEvents.ServingEndsProperly | mobilecore/engine.go:256-274 | When the current run's serving ends the engine is idle, stopped if it was cancelled, and terminal exactly if it failed. |
| CcidSessions.SessionBalance | local_packages/ccid/ios/Classes/CcidPlugin.swift:76-231 | In every interleaving a card's session is open exactly while its reader is retained, an operation transmits on it, or the reply that opened it waits; nothing is begun or ended twice or transmitted outside a session. |
| CcidSessions.SessionLasts | local_packages/ccid/ios/Classes/CcidPlugin.swift:97-206 | In every run a session begun to be retained, its card still connected at its block, is retained and open from then on until that reader's session is ended, the reader is disconnected or its card found invalid. |
| CcidSessions.BeginSessionRetains | local_packages/ccid/ios/Classes/CcidPlugin.swift:97-124 | From the call on: a session asked for on a connected, free reader and granted is retained when its block runs, unless the reader was disconnected meanwhile. |
| CcidSessions.TransceiveBegins | local_packages/ccid/ios/Classes/CcidPlugin.swift:136-194 | An APDU for a connected, free reader is transmitted in its retained session at once, and otherwise a session of its own is begun for it. |
| CcidSessions.OneShotTransmits | local_packages/ccid/ios/Classes/CcidPlugin.swift:160-189 | An APDU's own session, once begun on the reader's card, transmits. |
| CcidSessions.BeginSessionBegins | local_packages/ccid/ios/Classes/CcidPlugin.swift:97-124 | A session wanted on a connected, free and unretained reader is begun on its card. |
| CcidSessions.ConnectMakesCard | local_packages/ccid/ios/Classes/CcidPlugin.swift:76-95 | A free reader whose slot holds a card gets a card that was never made before. |
| CcidSessions.GivenUp | local_packages/ccid/ios/Classes/CcidPlugin.swift:126-206 | Ending a session, disconnecting, or finding the card invalid gives the session up at once. |
| CcidSessions.PendingKeepsCard | local_packages/ccid/ios/Classes/CcidPlugin.swift:76-231 | While a reader's operation is pending only a disconnection takes its card away. |
| CcidSessions.OneOpenCardPerReader | local_packages/ccid/ios/Classes/CcidPlugin.swift:76-231 | Two cards of one reader are never open together. |
| CcidSessions.EachCallAnsweredOnce | local_packages/ccid/ios/Classes/CcidPlugin.swift:45-231 | Every call is answered exactly once or still pending. |
| CcidSessions.PendingCallCanMove | local_packages/ccid/ios/Classes/CcidPlugin.swift:76-231 | A pending call always has its own reply or block ahead. |
| CcidSessions.AnsweredWithinThree | local_packages/ccid/ios/Classes/CcidPlugin.swift:76-231 | A pending call is answered once three such steps of its own have happened, and no other event touches it. |
| CcidSessions.NothingLeaks | local_packages/ccid/ios/Classes/CcidPlugin.swift:126-231 | With nothing pending on an unretained reader, no card ever made for it is open. |
| CcidSessions.IdleReaderCloses | local_packages/ccid/ios/Classes/CcidPlugin.swift:126-206 | Ending a session or disconnecting on an idle reader leaves no card of it open. |
| CcidSessions.StepInv | local_packages/ccid/ios/Classes/CcidPlugin.swift:76-231 | Every call, reply and block keeps the invariant that ties the three collections to the open sessions. |
| RecoveryPolicy.TicketTakenFresh | local_packages/proletarius_vowifi/ios/Classes/VowifiRecoveryPolicy.swift:61-65 | A ticket taken later than it was offered was neither superseded (stop, begin, background, newer request) nor taken in between, within 2^64 revisions. |
| RecoveryPolicy.TakenStaysTaken | local_packages/proletarius_vowifi/ios/Classes/VowifiRecoveryPolicy.swift:61-65 | A taken request is not offered again until something supersedes it. |
| RecoveryPolicy.ForegroundKept | local_packages/proletarius_vowifi/ios/Classes/VowifiRecoveryPolicy.swift:67-71 | A pending foreground reason stays until it is taken or the run is stopped or replaced. |
| RecoveryPolicy.RequestIsOffered | local_packages/proletarius_vowifi/ios/Classes/VowifiRecoveryPolicy.swift:48-71 | A foreground return or a regained path of a live run is pending until it is taken, superseded or stopped, and offered with the latest revision whenever the run has started and no scene is hidden. |
| RecoveryPolicy.TakeTakes | local_packages/proletarius_vowifi/ios/Classes/VowifiRecoveryPolicy.swift:61-65 | Taking the ticket on offer withdraws its request; nothing else changes anything. |
| RecoveryPolicy.NothingOfferedHidden | local_packages/proletarius_vowifi/ios/Classes/VowifiRecoveryPolicy.swift:20-52 | Nothing is offered between going to the background and coming back. |
| RecoveryPolicy.BeginStartsAfresh | local_packages/proletarius_vowifi/ios/Classes/VowifiRecoveryPolicy.swift:25-35 | A beginning run is the named one, or none if only the card is wanted, with nothing pending and not started. |
| CardTlv.WalkReadsForest | mobilecore/sim.go:364-398 | For every well-formed forest followed by filler the walk returns exactly the values under the wanted tag, in pre-order. |
| CardTlv.CutElementIgnored | mobilecore/sim.go:384-389 | An element cut short behind any well-formed ones contributes nothing, not even the part that is there, and ends the walk. |
| CardTlv.OddLengthIgnored | mobilecore/sim.go:373-383 | So does one whose length takes no octet or more than two. |
| CardTlv.OnlySlices | mobilecore/sim.go:364-398 | On arbitrary bytes everything returned is a stretch of the input. |
| CardTlv.HeadOfWritten | mobilecore/sim.go:366-387 | One written element is read back with its length form, whatever follows. |
| CardTlv.TlvValues | mobilecore/sim.go:364-398 | The loop and recursion compute the walk, and terminate. |
| CardTlv.ReadItem | mobilecore/sim.go:367-387 | The element at an offset, or none for filler, bad or overlong lengths. |
| Asn1RoundTrip.RoundTripExactly | tools/asn1_emit.py:471-592 | For every schema with distinct and unreserved tags decoding the encoding of a value gives the value if and only if it survives: text has code units below 256, and what an explicitly tagged class holds survives its wrapper, at every depth. |
| Asn1RoundTrip.ReadsBack | tools/asn1_emit.py:699-783 | The same for contents handed over inside any wrappers the decoder does not know of. |
| Asn1RoundTrip.ClearWrapper | tools/asn1_emit.py:774-776 | Where no member has the wrapper's number and class an explicitly tagged class survives exactly when all its members are absent. |
| Asn1RoundTrip.CollidingWrapper | tools/asn1_emit.py:774-776 | Where a member has them the class survives only if that member is present and alone; without members it is lost. |
| Asn1RoundTrip.MessageRoundTrip | tools/asn1_emit.py:699-783 | A whole message is read as one node whatever follows it, and it, or any contents alike, decodes to the value exactly in those cases. |
| Asn1RoundTrip.UndeclaredIgnored | tools/asn1_emit.py:264-270 | A child with an undeclared tag, anywhere among any children, does not change the decoded members. |
| Asn1RoundTrip.ExtraChildrenIgnored | tools/asn1_emit.py:699-783 | Any number of undeclared children among the encoded members leaves the decoded message unchanged. |
| Asn1RoundTrip.AlikeDecodeAlike | tools/asn1_emit.py:699-783 | Contents that differ, at any depth, only in undeclared children and constructed bits decode alike. |
| Asn1RoundTrip.MembersFound | tools/asn1_emit.py:727-781 | Each present member is found and decoded from its own contents and each absent one is not found. |
| Asn1RoundTrip.ExtensionsAreLost | lib/models/asn1/rsp_definitions.g.dart:5584-5590 | Every extension in the explicitly tagged list of a certificate is decoded without its contents. |
| Asn1RoundTrip.WrapperRead | tools/asn1_emit.py:774-776 | An explicitly tagged class is decoded from its wrapper: at most the member with the wrapper's number and class is found, and the condition for reading it back is exact. |
| Asn1Sequence.EncodeRecord | tools/asn1_emit.py:471-592 | The emitted encoder yields the present members in schema order under the tag. |
| Asn1Sequence.DecodeRecord | tools/asn1_emit.py:699-783 | The emitted decoder with its moving child index yields the members as specified. |
| Asn1Sequence.SeekTag | tools/asn1_emit.py:264-270 | The first child at or after an index with the tag, constructed bit ignored, or -1. |
| Asn1Tlv.ListReadBack | lib/models/asn1/simple_reader.dart:12-70 | A list of encodings with unreserved tags, whatever follows it, is read back as exactly that list, for multi-octet tags and long lengths. |
| Asn1Tlv.UniquelyDecodable | tools/asn1_emit.py:214-240 | Two lists of encodings with the same octets are the same list. |
| Asn1Tlv.CutListRead | lib/models/asn1/simple_reader.dart:12-70 | Of a list cut short anywhere the whole encodings are read, then the last one as far as its value goes, and nothing if the cut is in its tag or length. |
| Asn1Tlv.IndefiniteIsEmpty | lib/models/asn1/simple_reader.dart:36-52 | A value of indefinite length is taken as empty and what would be its contents as what follows. |
| Asn1Tlv.LongFormRead | lib/models/asn1/simple_reader.dart:30-46 | A length written in more octets than it needs is read all the same. |
| Asn1Tlv.ReservedNotReadBack | tools/asn1_emit.py:213-213 | The reserved identifier is the one that is not read back. |
| Asn1Tlv.EncodeRaw | tools/asn1_emit.py:214-222 | The filled buffer is tag, length and value concatenated. |
| Asn1Tlv.EncodeConstructed | tools/asn1_emit.py:228-240 | The pre-sized fill equals the plain concatenation of the children. |
| Asn1Tlv.Reader.ReadNext | lib/models/asn1/simple_reader.dart:12-70 | One step of the parser: the node and the octets left, or nothing only at the end. |
| Asn1Tlv.ReadChildren | lib/models/asn1/simple_reader.dart:133-145 | The child list, on any octets, always terminating. |
| Asn1Tags.TagInjective | tools/asn1_emit.py:68-82 | Different identifiers have different packed tags. |
| Asn1Tags.TagBytesAreIdentifier | tools/asn1_emit.py:213-213 | The octets emitted for a packed tag are the identifier octets of X.690, except for the reserved zero. |
| Asn1Tags.IdentifierForm | tools/asn1_emit.py:58-82 | Bit by bit: class, constructed bit, a number below 31 in the leading octet, and a larger one in as few seven-bit octets as possible, continued in all but the last. |
| Asn1Tags.TagClassesAgree | tools/asn1_emit.py:241-250 | Two packed tags agree but for the constructed bit exactly when number and class agree, for any number of octets. |
| Asn1Tags.EncodeTagValue | tools/asn1_emit.py:68-82 | The packing loop folds the identifier octets of X.690 section 8.1.2. |
| Asn1Tags.TagBytes | tools/asn1_emit.py:213-213 | The unfolding loop gives the base-256 digits. |
| Asn1Tags.ClearTagClass | tools/asn1_emit.py:241-250 | The shift loop clears bit 0x20 of the leading octet and nothing else. |
| Asn1Primitives.IntRoundTrip | tools/asn1_emit.py:143-169 | Every 64-bit integer is decoded back, in the shortest two's complement. |
| Asn1Primitives.IntBehindItsLength | tools/asn1_emit.py:162-169 | An integer read together with its tag and length octets comes out the same exactly when it takes eight octets itself. |
| Asn1Primitives.BitsRoundTrip | tools/asn1_emit.py:170-212 | Every 64-bit mask is decoded back. |
| Asn1Primitives.BitStringForm | tools/asn1_emit.py:170-192 | A mask other than zero becomes the string of its bits up to the highest set one, bit 0 the first, its last bit set and zeros in the unused places. |
| Asn1Primitives.HeldBitsRead | tools/asn1_emit.py:193-212 | From any string are read the bits it holds, up to 64, whatever stands in its unused places. |
| Asn1Primitives.LengthIsMinimal | tools/asn1_emit.py:135-142 | The length form is the shortest of X.690 section 8.1.3. |
| Asn1Primitives.EncodeInt | tools/asn1_emit.py:143-161 | The loops compute the trimmed octets. |
| Asn1Primitives.DecodeInt | tools/asn1_emit.py:162-169 | The loop computes the sign-filled value in 64 bits. |
| Asn1Primitives.EncodeBits | tools/asn1_emit.py:170-192 | The loops build the bit string up to the highest set bit. |
| Asn1Primitives.DecodeBits | tools/asn1_emit.py:193-212 | The loops read back every bit that fits, unused ones masked. |

## Left out

- Hex text of PDUs, the retained raw copies and storage status.
- SmsSubmit.PrepareParts: the AT prompt, setup commands and length field of a part, which only the modem path uses.
- SmsTime.DecodeTimestamp: the stated components, not the instant the time library makes of them (which carries a day 31 or a second 60 over).
- SmsDecode.DecodeTextBytes: GB18030, UTF-8 and Latin-1 detection is one parameter of the codec, as are the national language tables.
- Invalid UTF-8 in a Go string: texts are sequences of Unicode scalar values.
- SmsAddress.DecodeNumericAddress: the two nested loops over octets and half-octets are one loop over half-octets.
- SmsDecode.DecodeUserData: the message is passed and returned as a value; the program writes through a pointer.
- The 15-second spacing of registrations, call state, audio and the status ticker of a cycle; a cycle whose context is already cancelled when it would be published.
- MaintenanceCycle.RegistrationKept: assumes a successful registration reports a positive grant and a probe none, as the service promises.
- MaintenanceCycle.ProbeWithinBinding: counts the probe's minute from the check of the binding; the program's 60-second context starts later, in the worker.
- The steps of serving before the loop (card reading, proposal and identity configuration) and the cycle's own protocol work.
- ReconnectLoop.Session.OneTurn: an attempt is refused only for cancellation; EngineEvents.RunStaysUntilItEnds is why.
- Certificate profile details and the clamping of diagnostic fields.
- `bcdDigits`, `numberFromBytes`, AKA parsing and the rest of the card reader: easy members.
- Flutter error codes and messages, hex parsing of commands, reader listing and the reader's slot state.
- CcidSessions.CcidPlugin.OnBegun: one block serves both kinds of session, told apart by the purpose it was begun for.
- Asn1Tlv.Reader.ReadNext: tags and lengths are unbounded. In Dart a stated length of 2^63 or more, which received octets can contain, wraps: to a smaller length, to minus one (read as indefinite), or to a negative one (an exception); tags of more than eight octets lose their leading ones.
- Asn1Tlv.ReadChildren: the same; it agrees with the program on octets that state no such length and no such tag.
- Enumerations, CHOICE, members without a determinate tag, tag inference for untagged members, and the cached original node that short-cuts re-encoding.
- Asn1RoundTrip.Survives: for a bit string inside a wrapper that collides with its member the condition compares the mask with the octets it is read from; there is no shorter one.
- The ASN.1 text parser and the type model builder.
