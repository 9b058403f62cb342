# lmtpsmsd SMS submission core in Dafny

lmtpsmsd is an LMTP-to-SMS gateway. It sends messages through a GSM modem on a
serial line. This project models the three pieces of sequential logic at its
core:

- **the PDU codec** (`Hex`, `Septets`, `Pdu`). It turns a destination number
  and a GSM 7-bit text segment into the hex string handed to the modem: an
  SMS-SUBMIT TPDU (3GPP TS 23.040 section 9.2.2.2) preceded by the empty-SMSC
  octet `00`. The pieces are the semi-octet number (section 9.1.2.3 of the same
  standard), the address field (section 9.1.2.5) and 7-bit septet packing
  (3GPP TS 23.038 section 6.1.2.1). Every encoder has a decoder written next
  to it, and a round-trip lemma connects the two.
- **the AT command engine** (`Lines`, `Transport`, `AtModem`). It runs over a
  scripted serial port: a sequence of read results, where an empty chunk is a
  read that timed out and an exhausted script keeps timing out. The port keeps
  a log of writes, reads, and the acquiring and releasing of the locked
  device. `waitforbuf`, `command`, `ping`, `setspeed`, `pinstatus`, `sendpin`,
  `auth` and the two-phase `sendpdusms` are pure functions from a port to an
  outcome and the port after the exchange. Their contracts state what was
  written, how many reads the try budget allows, and which line ended the
  wait.
- **the device session** (`Config`, `SmsDevice`). It is connected or not, and
  keeps a count of errors. `connect` prepares the serial settings, locks the
  port and runs the handshake. `sendpdusms` and `ping` connect first; a failure
  after connecting drops the connection and counts exactly one error. A failure
  inside connect propagates without being counted.

`Vectors` holds worked examples: the two septets of "HI" packed by hand.

Whether the device can be opened is a boolean parameter of `Connect`. The
serial port is the scripted `Transport.Port`. Time, logging and the real
serial driver are not modelled.

## Model

| member | source | states |
|---|---|---|
| `Hex.Pad2` | lmtpsmsd/_private/pdu.py:34 | "{:02X}" or "{:02x}" stands for the value as a hex number and is written in the requested case; below 256 it is exactly two digits that read back as the value, and from 256 up the field widens to three or more digits |
| `Hex.Digits` | lmtpsmsd/_private/pdu.py:34 | the minimal hex rendering stands for the value, most significant digit first, has no leading zero, has at least two digits from 16 up, and is in the requested case |
| `Hex.Digit` | lmtpsmsd/_private/pdu.py:48-50 | one hex digit stands for the nibble, is a decimal digit exactly below ten, and is in the requested case |
| `Hex.OctetsHex` | lmtpsmsd/_private/pdu.py:33-34 | OctetArray.hex gives two characters per octet, all upper-case hex digits |
| `Hex.OctetsRoundTrip` | lmtpsmsd/_private/pdu.py:33-34 | reading the hex of octets back, two digits at a time, gives the octets back |
| `Septets.SeptetField` | lmtpsmsd/_private/pdu.py:85 | "{:07b}" of a septet is seven bits; a value of 128 or more widens the field to its bit length |
| `Septets.FieldWidthIsPadded` | lmtpsmsd/_private/pdu.py:85 | the field width is the bit length padded to at least seven, as the format pads |
| `Septets.SeptetStream` | lmtpsmsd/_private/pdu.py:82-87 | n septets below 128 give exactly 7n bits |
| `Septets.SeptetStreamLayout` | lmtpsmsd/_private/pdu.py:82-87 | bit 7k+j of the stream is bit j of septet k, least significant first |
| `Septets.SeptetBit` | lmtpsmsd/_private/pdu.py:82-87 | the same fact for one septet k and bit j, by induction over the septets |
| `Septets.OctetGroups` | lmtpsmsd/_private/pdu.py:67-73 | regrouping bits by eight gives ceil(n/8) octets, each below 256 |
| `Septets.OctetStreamOfGroups` | lmtpsmsd/_private/pdu.py:67-73 | bit i of each group becomes bit i of its octet, and a short final group is padded with zero high bits |
| `Septets.LsbValueOfBits` | lmtpsmsd/_private/pdu.py:70-72 | reading w low bits of a value below 2^w gives the value back |
| `Septets.LsbBitsOfValue` | lmtpsmsd/_private/pdu.py:70-72 | the bits of a group's value are the group followed by zero padding |
| `Septets.SeptetGroupsOfStream` | lmtpsmsd/_private/pdu.py:82-87 | regrouping the septet bit stream by seven gives the septets back |
| `Septets.Pack` | lmtpsmsd/_private/pdu.py:114-115 | packing n septets gives ceil(7n/8) octets, each below 256; no septets give no octets |
| `Septets.PackRoundTrip` | lmtpsmsd/_private/pdu.py:67-87 | packing is lossless: unpacking with the septet count restores the septets |
| `Pdu.DigitsOf` | lmtpsmsd/_private/pdu.py:96 | the nibbles exist exactly when every character is '+' or a digit, and they spell the number with every '+' removed; otherwise the error is the first character that is neither |
| `Pdu.NewPhoneNumber` | lmtpsmsd/_private/pdu.py:94-96 | the constructor succeeds exactly when the nibbles exist, and keeps the text |
| `Pdu.TypeOfNumber` | lmtpsmsd/_private/pdu.py:102 | the type of number is 0x91 exactly when the text starts with '+', and 0x81 otherwise |
| `Pdu.SemiOctets` | lmtpsmsd/_private/pdu.py:43-52 | n nibbles give 2*ceil(n/2) characters |
| `Pdu.SemiOctetsRoundTrip` | lmtpsmsd/_private/pdu.py:43-52 | the semi-octets read back, with the digit count, as the nibbles |
| `Pdu.SemiOctetsAt` | lmtpsmsd/_private/pdu.py:49-51 | nibble i is written at position i+1 when i is even and i-1 when odd: each pair is swapped |
| `Pdu.SemiOctetsLayout` | lmtpsmsd/_private/pdu.py:43-52 | every nibble sits at its swapped position, and an odd count puts F just before the last nibble |
| `Pdu.SemiOctetsFiller` | lmtpsmsd/_private/pdu.py:47-48 | with an odd count, the high nibble of the last octet is the filler F |
| `Pdu.NoFillerWhenEven` | lmtpsmsd/_private/pdu.py:49-51 | with an even count of decimal digits, no position holds F |
| `Pdu.FillerOnlyWhenOdd` | lmtpsmsd/_private/pdu.py:47-50 | F appears in the semi-octets of decimal digits exactly when their count is odd |
| `Pdu.AddressField` | lmtpsmsd/_private/pdu.py:101-105 | dest_hexrepr of fewer than 256 digits is 4 + 2*ceil(n/2) characters |
| `Pdu.AddressFieldRoundTrip` | lmtpsmsd/_private/pdu.py:101-105 | the address field reads back as the type selector and the digits: the length octet counts digits, not octets |
| `Pdu.AddressRoundTrip` | lmtpsmsd/_private/pdu.py:101-105 | an address field followed by any text reads back as the address, leaving that text |
| `Pdu.BodyHex` | lmtpsmsd/_private/pdu.py:114-115 | GSM0338Body.hex of n septets is 2*ceil(7n/8) characters; the empty body gives the empty string |
| `Pdu.BodyRoundTrip` | lmtpsmsd/_private/pdu.py:114-115 | the body hex reads back, with the septet count, as the septets |
| `Pdu.UserDataHex` | lmtpsmsd/_private/pdu.py:133 | the part after the address is 6 + 2*ceil(7n/8) characters for fewer than 256 septets |
| `Pdu.UserDataRoundTrip` | lmtpsmsd/_private/pdu.py:133 | "00", the coding scheme, the septet count and the body read back as the septets |
| `Pdu.TpduHex` | lmtpsmsd/_private/pdu.py:132-133 | tpdu_hex is twice its octet count long: 7 fixed octets, ceil(n/2) for the number and ceil(7m/8) for the body |
| `Pdu.TpduRoundTrip` | lmtpsmsd/_private/pdu.py:132-133 | the TPDU reads back as the destination's type and digits and the septets |
| `Pdu.TpduOctetLength` | lmtpsmsd/_private/pdu.py:135-136 | the TPDU hex has even length, so the halving is exact; the count is the TPDU's octets without the SMSC octet |
| `Pdu.SubmissionHex` | lmtpsmsd/_private/pdu.py:126-136 | hex() is the SMSC sentinel plus the TPDU: two characters more than twice the announced octet count |
| `Pdu.SubmissionRoundTrip` | lmtpsmsd/_private/pdu.py:126-133 | the sentinel "00" and the TPDU read back as the destination and the septets |
| `Pdu.SemiOctetsUpper` | lmtpsmsd/_private/pdu.py:48-50 | the semi-octets are upper-case hex digits |
| `Pdu.AddressFieldUpper` | lmtpsmsd/_private/pdu.py:105 | the address field is upper-case hex digits |
| `Pdu.UserDataCase` | lmtpsmsd/_private/pdu.py:133 | the protocol identifier, coding scheme and septet count are lower-case hex ("{:02x}") and the body upper-case hex |
| `Pdu.TpduHexText` | lmtpsmsd/_private/pdu.py:133 | the TPDU is hex digits |
| `Pdu.SubmissionHexText` | lmtpsmsd/_private/atmodem.py:96 | the whole submission is hex digits, so encoding it as ASCII cannot fail |
| `Vectors.StreamSpecimen` | lmtpsmsd/_private/pdu.py:82-87 | the septets of "HI" give the bits of 0x48 then of 0x49, least significant first |
| `Vectors.OctetSpecimen` | lmtpsmsd/_private/pdu.py:67-73 | those fourteen bits regroup into octets 0xC8 and 0x24 |
| `Vectors.PackSpecimen` | lmtpsmsd/_private/pdu.py:114-115 | "HI" packs to C8 24 |
| `Decimal.FromNat` | lmtpsmsd/_private/atmodem.py:93 | "{}".format(n) is the shortest run of decimal digits with value n, and int() reads it back |
| `Decimal.ParseInt` | lmtpsmsd/smsdevice.py:52-54 | int() succeeds exactly on an optionally signed non-empty run of ASCII digits; the magnitude is the value of the digits, and the result is negative only after '-' |
| `Decimal.LeadingZero` | lmtpsmsd/smsdevice.py:54 | a leading zero does not change the value of a run of digits |
| `Decimal.SignsAndZeros` | lmtpsmsd/smsdevice.py:54 | int() ignores a leading zero and a '+' sign, and '-' negates |
| `Decimal.SignedRoundTrip` | lmtpsmsd/smsdevice.py:54 | every integer written in decimal, with '-' when negative, reads back as itself |
| `Config.ConvertKeys` | lmtpsmsd/smsdevice.py:52-57 | each listed key that is present becomes its integer; absent keys stay absent; other keys pass through; the first value that does not convert is the error |
| `Config.Remaining` | lmtpsmsd/smsdevice.py:49-51 | after the pops the configuration holds every key except device and speed |
| `Config.PrepareSerial` | lmtpsmsd/smsdevice.py:44-57 | a missing device, then a missing speed, is an error; otherwise success exactly when every present integer key converts; the settings are the device, the speed and the other keys with timeout, bytesize and stopbits as integers |
| `Lines.AsciiDecode` | lmtpsmsd/_private/atmodem.py:49 | decoding with errors='ignore' turns one byte below 128 into its character and drops one byte of 128 or more; the result is ASCII and no longer than the input; pure ASCII encodes back to the same bytes |
| `Lines.AsciiDecodeAppend` | lmtpsmsd/_private/atmodem.py:49 | decoding goes byte by byte: the decoding of a concatenation is the concatenation of the decodings, so ASCII bytes keep their order |
| `Lines.AsciiEncode` | lmtpsmsd/_private/atmodem.py:37 | encoding as ASCII succeeds exactly when every character is below 128, byte for character |
| `Lines.SplitLines` | lmtpsmsd/_private/atmodem.py:53 | splitlines gives lines with no boundary character, a single line for text without one, and nothing for empty text |
| `Lines.SplitTerminatedLine` | lmtpsmsd/_private/atmodem.py:53 | a line ended by LF, CR, CR LF or another ASCII boundary is the first line of the split, and the rest splits on its own |
| `Lines.EmptyLineIgnored` | lmtpsmsd/_private/atmodem.py:55-56 | an empty line is never an answer, because the callbacks return the line and the engine tests it for truth; an exact test accepts only its text |
| `Lines.FirstMatch` | lmtpsmsd/_private/atmodem.py:54-57 | the result is the first line the callback accepts, and none exactly when no line is accepted |
| `Transport.RawReadLine` | lmtpsmsd/_private/debugserial.py:61-67 | a line read concatenates chunks up to and including the first one ending in LF, or up to an empty read; no earlier chunk was empty or ended a line |
| `Transport.ReadLineStopsAtFirstLf` | lmtpsmsd/_private/debugserial.py:61-67 | with the one-byte reads of the serial port, a line read holds no LF before its end |
| `Transport.ReadLine` | lmtpsmsd/_private/debugserial.py:69-72 | readlinebytes returns the line RawReadLine assembles, consumes exactly its chunks, and logs exactly one read of it |
| `Transport.Read` | lmtpsmsd/_private/atmodem.py:43 | a partial read returns the next chunk and consumes it, or returns nothing once the script is exhausted, and logs one read |
| `AtModem.Reset` | lmtpsmsd/_private/atmodem.py:30-34 | reset writes Ctrl-Z, then CR, and reads nothing |
| `AtModem.CommandLine` | lmtpsmsd/_private/atmodem.py:37 | the bytes sent for a command exist exactly when it is ASCII, and are its characters followed by CR |
| `AtModem.Send` | lmtpsmsd/_private/atmodem.py:36-38 | send writes the text and CR in one write, or fails on non-ASCII text before writing |
| `AtModem.Scan` | lmtpsmsd/_private/atmodem.py:46-57 | a line is found only in a ready buffer (ending in LF, or any non-empty buffer in partial mode), is accepted and is one of its lines; nothing is found exactly when the buffer is not ready or no line is accepted |
| `AtModem.WaitForBuf` | lmtpsmsd/_private/atmodem.py:40-58 | zero tries read nothing; it only reads; complete-line mode reads at most `tries` times and exactly that many on giving up; partial mode counts only empty reads against the budget; a found line is the first accepted line of the whole buffer |
| `AtModem.WaitForBufFirstHit` | lmtpsmsd/_private/atmodem.py:44-58 | the wait stops at the first read after which the buffer holds an accepted line; on giving up, no read did |
| `AtModem.WaitOutcome` | lmtpsmsd/_private/atmodem.py:40-58 | a wait from an empty buffer either heard an answer at its first read that made the buffer hold an accepted line, within its budget, or spent its whole budget without any inspection finding one |
| `AtModem.WaitedDecides` | lmtpsmsd/_private/atmodem.py:40-58 | the reads decide the outcome: no log is both heard and unheard |
| `AtModem.CommandLogDecides` | lmtpsmsd/_private/atmodem.py:60-67 | no command log shows both an OK and `tries` unanswered exchanges, so the log decides the outcome |
| `AtModem.Command` | lmtpsmsd/_private/atmodem.py:60-67 | command writes only its line, at most `tries` times, and fails on non-ASCII text before writing; its log is a run of exchanges of four line reads, each without OK, and it succeeds exactly when the last exchange heard OK, which ends the log; it fails with no response after exactly `tries` unanswered exchanges |
| `AtModem.Ping` | lmtpsmsd/_private/atmodem.py:69-70 | ping writes AT one to three times; it succeeds exactly when one of its three exchanges heard OK, and fails with no response after three unanswered ones |
| `AtModem.SetSpeed` | lmtpsmsd/_private/atmodem.py:75-76 | setspeed fails on a non-ASCII speed before writing; otherwise it writes AT+IPR=<speed> one to three times and succeeds exactly when one of three exchanges heard OK |
| `AtModem.PinStatus` | lmtpsmsd/_private/atmodem.py:78-83 | pinstatus writes AT+CPIN? once and waits up to eight line reads; it succeeds exactly when one of them brought a +CPIN: line, and then answers whether the first such line contains READY; otherwise the status is unknown |
| `AtModem.SendPin` | lmtpsmsd/_private/atmodem.py:85-89 | sendpin fails on a non-ASCII PIN before writing; otherwise it writes AT+CPIN=<pin> once and succeeds exactly when an OK line came within four line reads, and is rejected otherwise |
| `AtModem.Auth` | lmtpsmsd/_private/atmodem.py:102-104 | auth writes AT+CPIN? first; an unknown status fails, READY succeeds, and otherwise the outcome is that of sendpin after the query, with the PIN as the second write |
| `AtModem.Announce` | lmtpsmsd/_private/atmodem.py:91-95 | AT+CMGF=0 with one try; when it heard OK, AT+CMGS=<TPDU octets> and a wait of up to 30 empty reads; success exactly when a "> " line arrived, otherwise the submission was not started |
| `AtModem.Deliver` | lmtpsmsd/_private/atmodem.py:96-100 | the submission as ASCII hex, then Ctrl-Z CR, then up to four line reads; success exactly when a +CMGS: line came, otherwise not acknowledged |
| `AtModem.SendPduSms` | lmtpsmsd/_private/atmodem.py:91-100 | the log shows PDU mode acknowledged and the prompt heard before the PDU is written; success wrote all four lines and heard +CMGS:; no OK to AT+CMGF=0 wrote only that; no prompt wrote only the two announcements after 30 timeouts |
| `SmsDevice.NewSession` | lmtpsmsd/smsdevice.py:35-40 | a new session is offline with no errors and keeps both configurations |
| `SmsDevice.Greet` | lmtpsmsd/smsdevice.py:66-68 | the handshake starts with Ctrl-Z, CR, the empty line and AT; after those three writes the log is that of ping, so the greeting succeeds exactly when an exchange heard OK |
| `SmsDevice.Handshake` | lmtpsmsd/smsdevice.py:64-70 | the handshake succeeds exactly when the greeting and then the configuration succeed; a silent modem fails it with no response, and after the greeting its outcome is the configuration's, error included; the PIN is looked up only after the speed command was written; success has the speed command directly followed by the PIN status query |
| `SmsDevice.Configure` | lmtpsmsd/smsdevice.py:69-70 | success exactly when setspeed succeeds, a PIN is configured and auth succeeds; a failed setspeed or auth is the outcome, as a modem error; a missing PIN fails right after the speed command |
| `SmsDevice.Open` | lmtpsmsd/smsdevice.py:59-77 | the outcome is that of the handshake on the locked port; success leaves the port locked with the settings, locked before anything else; failure leaves it released, and acquired exactly once |
| `SmsDevice.Connect` | lmtpsmsd/smsdevice.py:42-77 | a no-op when connected; configuration errors and an unopenable port touch nothing; success locks the port with the prepared settings after reset, empty line, ping, speed and PIN in that order; a failed handshake acquired the port first and released it last; nothing but the link changes |
| `SmsDevice.ConnectRunsHandshake` | lmtpsmsd/smsdevice.py:59-70 | from offline, with a usable configuration and a device that opens, connect's outcome is the handshake's on the locked port |
| `SmsDevice.ConnectSucceeds` | lmtpsmsd/smsdevice.py:42-77 | from offline, connect succeeds exactly when the configuration is usable, the device opens, ping succeeds, setspeed succeeds, a PIN is configured and auth succeeds |
| `SmsDevice.Disconnect` | lmtpsmsd/smsdevice.py:79-84 | disconnect releases a held port and always leaves the session offline |
| `SmsDevice.DisconnectIdempotent` | lmtpsmsd/smsdevice.py:79-84 | disconnecting twice is disconnecting once |
| `SmsDevice.Fail` | lmtpsmsd/smsdevice.py:95-98 | the failure path disconnects and counts exactly one error |
| `SmsDevice.Connected` | lmtpsmsd/smsdevice.py:87 | a successful connect changes only the link and acquires nothing when already connected |
| `SmsDevice.NotConnected` | lmtpsmsd/smsdevice.py:87 | a failed connect leaves the error count alone and the session offline |
| `SmsDevice.Lift` | lmtpsmsd/smsdevice.py:92-98 | a failed modem exchange becomes a modem error of the session with the same cause, and success stays success |
| `SmsDevice.PingAndSubmit` | lmtpsmsd/smsdevice.py:92-93 | the modem work of sendpdusms writes and reads only; success has the last four writes delivering the submission |
| `SmsDevice.PingThenSubmit` | lmtpsmsd/smsdevice.py:92-93 | ping and submit succeeds exactly when both do; otherwise the outcome is the failure of the first step that failed |
| `SmsDevice.SubmitConnected` | lmtpsmsd/smsdevice.py:89-98 | after connecting, the outcome is that of ping and submit, as a modem error; success keeps the connection and the count, failure drops the connection and counts one |
| `SmsDevice.SendPduSms` | lmtpsmsd/smsdevice.py:86-98 | a failed connect is returned as it is and counts nothing; after connecting, the outcome is that of ping then submit, and an error is counted exactly when that failed; success leaves the session connected, the last four writes delivering the submission |
| `SmsDevice.Ping` | lmtpsmsd/smsdevice.py:100-109 | a failed connect is returned as it is and counts nothing; after connecting, the outcome is that of the modem ping, and an error is counted exactly when it failed; success leaves the session connected |

`Pdu.SmscHex` (lmtpsmsd/_private/pdu.py:90-91) and `Pdu.CodingScheme`
(lmtpsmsd/_private/pdu.py:117-118) are constants: "00" and 0. Their values are
pinned by the round trips. `Pdu.ParseSubmission` accepts only a leading "00",
and `Pdu.ParseUserData` accepts only the coding scheme 0.

## Left out

- `TextMessage.parts` (lmtpsmsd/_private/pdu.py:138-153): it needs the external smsutil splitter and GSM encoder. The model takes a septet sequence as given.
- `NibbleArray.octet_length` (lmtpsmsd/_private/pdu.py:57-61): nothing calls it.
- lmtpsmsd/smsgateway.py: LMTP framing and e-mail parsing. It is not part of this model.
- setup.py: packaging only.
- The serial driver of lmtpsmsd/_private/debugserial.py: opening, fcntl locking and logging. Only the shape of its line read is kept. Opening and locking the device are one step that succeeds or not (the `opens` parameter of `SmsDevice.Connect`).
- Writes never fail, and `flush` has no effect in the model.
- `time.sleep`, logger calls and exception message texts. Failures are datatype variants.
- The try/except around ASCII decoding in `waitforbuf`: decoding with errors='ignore' cannot raise.
- The value `command` returns after a retry: the source drops it, and no caller uses it.
- Session operations take a scripted port and return the port after their I/O. The Python object's mutable state is modelled as values passed in and out.
- Pdu.DigitsOf: accepts ASCII digits only. Python's int() also accepts other Unicode decimal digits such as Arabic-Indic ones.
- Decimal.ParseInt: accepts an optional sign and ASCII digits. Python's int() also allows surrounding whitespace, underscores between digits and non-ASCII digits.
- Counts of 256 or more digits or septets: the hex formatter widens those fields to three or more digits, and the codec models that. The round-trip and length properties are stated only below 256, where a one-octet field can hold the count.
- `checkspeed` (lmtpsmsd/_private/atmodem.py:72-73): nothing in the session calls it. It is `command` with AT+IPR?, which `AtModem.Command` covers.
- Recursion depth: `waitforbuf` (lmtpsmsd/_private/atmodem.py:58) and `_readlinebytes` (lmtpsmsd/_private/debugserial.py:61-67) recurse once per read, and CPython stops at about 1000 frames. A modem that streams more than that without an answer raises RecursionError. Inside connect, its finally block (lmtpsmsd/smsdevice.py:74-77) releases the port. After connect, the finally blocks (lmtpsmsd/smsdevice.py:95-98, 106-109) drop the connection and count an error. The model recurses without a limit.
- Chunk size: the real port's read() returns at most one byte, so a line read ends at its first LF (`Transport.ReadLineStopsAtFirstLf`). A script may hold longer chunks. A chunk with an LF before its last byte does not end a line in `Transport.RawReadLine`, just as the source only looks at a chunk's last byte.
