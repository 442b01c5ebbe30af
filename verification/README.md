# cardiag OBD-II protocol layer in Dafny

This project models the protocol core of cardiag. cardiag is a Java OBD-II client that talks to an
ELM327-style adapter over a serial port. It covers:

- **Transport framing** (`PortCommunication`):
  - A request is written as its parts followed by CR LF.
  - The answer arrives in chunks until a chunk ends with the `>` prompt.
  - The chunks are joined with `\r`, the prompt is cut off, and the buffer is split into trimmed, non-blank lines.
  - AT commands (`at`, `setEcho`, `setLineTermination`, `reset`) and the `OK` check sit on top of this.
- **Requests** (`OBD2Standard.ask`, `askOneLine`):
  - The mode and PID are written as two hex digits each.
  - Every answered line is classified as `NO DATA`, a `7F` negative answer or a data answer.
  - A data answer's data starts after the PID for the modes whose answers carry one.
- **Decoders**:
  - supported PIDs as a bitmap;
  - fuel system status, ECU compatibility and secondary air status as table lookups;
  - temperatures as A − 40 and distances as A·256 + B;
  - the monitor status (service $01 PID $01) bit by bit;
  - the error report (service $03): three trouble codes per line, with `P0000` meaning "no code".
- **Bit utilities** (`SerialUtils`): hex byte tokens expanded MSB-first into booleans, and booleans folded
  back into a Java `int`.
- **Trouble codes** (`Fault.decode`): two bytes give the five-character SAE J2012 code.
- **Registries**:
  - `Mode` and `PID`, including the quirks of `PID.parseHex`'s switch: code 0 falls through into case 1
    outside its three modes, and codes 7 and 8 select bank 2 long term and bank 1 short term;
  - the enumerations `FuelStatus`, `EcuCompatibility`, `AirStatus` and `Action`.
- **State holders**: `MonitorStatus` and `Report`, whose setters change only their own field. `Report`
  copies the supported-PIDs array in and out.

## How it is modelled

- **Module layout:** one module per Java class. Two shared modules support them:
  - `Wrappers` holds `Option`, `Result`, `Outcome` and the error kinds that stand for the exceptions thrown.
  - `JavaText` holds the library calls the code relies on: `Integer.parseInt(s, 16)`,
    `Integer.toHexString`, `Integer.toBinaryString`, `StringUtils.leftPad`, `String.trim`, `String.split`,
    `StringUtils.split`, `equalsIgnoreCase` and `int` wrap-around.
- **Null and exceptions:** a Java `null` is `None`. An exception is an `Err` carrying its kind; messages are dropped.
- **The serial port** is a `PortCommunication` object with two fields:
  - `input`: a queue of the chunks the adapter will send;
  - `output`: the sequence of strings written so far.

  The wall-clock timeout of `readResponse` becomes a bound `maxPolls` on the number of polls.
- **Functions and methods:**
  - Pure Java code is modelled as functions.
  - Loops and state changes are modelled as methods proved against those functions:
    - `ReadResponse`, `CheckOkResponse`, `ClassifyLines`, `DecodeAll`, `ConvertHexToBooleanArray` and `ToInteger`;
    - the `Obd2Standard` getters;
    - the setters of `MonitorStatus` and `Report`.
- **Response and NO DATA:** an answered line is `Answer(isError, mode, pid, data)`. `ResponseWithNoData` is
  not modelled as a class. `OBD2Standard.java` uses it only as a non-error response without data (lines 141
  and 288), so it is the variant `NoData(mode, pid)`. `Response.java` shows an older constructor without `isError`. The model
  follows the four-argument use in `OBD2Standard.java`.

## Model

| member | source | states |
|---|---|---|
| Faults.Decode | src/main/java/cardiag/obd2/Fault.java:34-73 | decodes exactly when both arrays have at least 8 elements, otherwise fails with an index error; a decoded code has 5 characters |
| Faults.ToHex | src/main/java/cardiag/obd2/Fault.java:76-86 | the loop's result is Integer.toHexString of the big-endian value; four booleans give the single hex digit of a value below 16 |
| Faults.NibbleHex | src/main/java/cardiag/obd2/Fault.java:68-70 | each four-boolean group is written as one lowercase hex digit of its value |
| Faults.DecodeFields | src/main/java/cardiag/obd2/Fault.java:34-72 | the code is "PCBU"[a0a1], the digit a2a3, then the hex digits of a4..a7, b0..b3, b4..b7, MSB first |
| Faults.DecodeLetter | src/main/java/cardiag/obd2/Fault.java:36-66 | the letter is P, C, B, U and the second character 0..3 for the four bit pairs |
| Faults.DecodeAllFalse | src/main/java/cardiag/obd2/Fault.java:34-72 | all-false input decodes to P0000 |
| Faults.SameFields | src/main/java/cardiag/obd2/Fault.java:36-70 | equal codes have equal values in every bit field |
| Faults.DecodeInjective | src/main/java/cardiag/obd2/Fault.java:36-70 | different 16-bit inputs give different codes |
| Faults.ByteNibbles | src/main/java/cardiag/obd2/OBD2Standard.java:293-295 | of a converted byte x, bits 7-4 hold x / 16 and bits 3-0 hold x % 16 |
| Faults.ByteTopBits | src/main/java/cardiag/obd2/OBD2Standard.java:293-295 | of a converted byte x, bits 7-6 hold x / 64 and bits 5-4 hold x / 16 % 4 |
| Faults.DecodeBytes | src/main/java/cardiag/obd2/OBD2Standard.java:293-295 | bytes A B decode to "PCBU"[A >> 6], (A >> 4) & 3, then the hex digits of A & 15, B >> 4, B & 15 |
| SerialUtils.ConvertHexToBooleanArray | src/main/java/cardiag/serial/SerialUtils.java:36-49 | the nested loops compute Convert: 8 booleans per byte token, or the NumberFormat or index error the Java code throws first |
| SerialUtils.Convert | src/main/java/cardiag/serial/SerialUtils.java:36-49 | the booleans of a line of byte tokens, 8 per token MSB first, or ScanError's exception when a token is not a byte |
| SerialUtils.ScanError | src/main/java/cardiag/serial/SerialUtils.java:36-49 | the first exception the nested loops throw: NumberFormat for a token parseInt rejects, IndexOutOfBounds when the digits overrun the 8 × n slots |
| SerialUtils.ScanFinished | src/main/java/cardiag/serial/SerialUtils.java:38-48 | once every token is written within the array, the array is exactly full and the result is the filled booleans |
| SerialUtils.TokenWritten | src/main/java/cardiag/serial/SerialUtils.java:41-46 | a token whose digits fit appends exactly those digits as booleans and moves on to the next token |
| SerialUtils.TokenUnparsable | src/main/java/cardiag/serial/SerialUtils.java:42 | a token Integer.parseInt rejects makes the whole conversion fail with NumberFormat |
| SerialUtils.TokenOverruns | src/main/java/cardiag/serial/SerialUtils.java:43-45 | a token whose digits run past the 8 × n slots makes the conversion fail with an index error |
| SerialUtils.WriteDigits | src/main/java/cardiag/serial/SerialUtils.java:44-46 | the inner loop writes each digit as digit == '1' from slot k on, and overruns exactly when the digits do not fit |
| SerialUtils.PaddedBinaryOfByte | src/main/java/cardiag/serial/SerialUtils.java:43 | a byte is padded to exactly eight digits, '1' exactly where its MSB-first bit is set |
| SerialUtils.PaddedBinaryOfNonByte | src/main/java/cardiag/serial/SerialUtils.java:42-45 | a negative value or one above 255 gives more than eight digits |
| SerialUtils.DigitsOfByte | src/main/java/cardiag/serial/SerialUtils.java:43-45 | the booleans written for a byte are its eight bits, MSB first |
| SerialUtils.HexBits | src/main/java/cardiag/serial/SerialUtils.java:38 | a line of n byte tokens expands to 8 × n booleans |
| SerialUtils.HexBitsAt | src/main/java/cardiag/serial/SerialUtils.java:40-46 | element 8i+j of the expansion is bit 7−j of token i |
| SerialUtils.ConvertOne | src/main/java/cardiag/serial/SerialUtils.java:40-46 | a single token converts to its eight bits when it is a byte, otherwise to the parse or index error |
| SerialUtils.SupportedPidsExample | src/test/java/cardiag/obd2/OBD2StandardITest.java:44-47 | "03 01 00 00" converts to 32 booleans, the first byte to 00000011 |
| SerialUtils.ToInteger | src/main/java/cardiag/serial/SerialUtils.java:52-62 | the loop returns the big-endian value of the booleans reduced to a Java int (0 for none) |
| SerialUtils.ToIntegerExact | src/main/java/cardiag/serial/SerialUtils.java:52-62 | with at most 31 booleans nothing wraps and the value is below 2^n |
| SerialUtils.ConvertThenToInteger | src/main/java/cardiag/serial/SerialUtils.java:36-62 | toInteger(convertHexToBooleanArray(t)) is the byte value of the token t |
| SerialUtils.BigEndianBound | src/main/java/cardiag/serial/SerialUtils.java:52-62 | n booleans fold to a value below 2^n |
| SerialUtils.BigEndianInjective | src/main/java/cardiag/serial/SerialUtils.java:52-62 | equal-length boolean sequences with the same value are equal |
| SerialUtils.BigEndianBits | src/main/java/cardiag/serial/SerialUtils.java:52-62 | folding the k low bits of n < 2^k gives n back |
| SerialUtils.BigEndianBitsMod | src/main/java/cardiag/serial/SerialUtils.java:52-62 | folding the k low bits of n gives n mod 2^k |
| SerialUtils.BitsAt | src/main/java/cardiag/serial/SerialUtils.java:44-45 | element j of the k-bit MSB-first expansion is bit k−1−j |
| JavaText.ParseHexInt | src/main/java/cardiag/serial/SerialUtils.java:42 | Integer.parseInt(s, 16) yields an int or fails with NumberFormat |
| JavaText.ToHexString | src/main/java/cardiag/obd2/Fault.java:85 | Integer.toHexString is non-empty lowercase hex digits whose value is the number |
| JavaText.ParseToHexString | src/main/java/cardiag/obd2/FuelStatus.java:58 | parsing toHexString(n) with radix 16 gives n back |
| JavaText.Hex2Digits | src/main/java/cardiag/obd2/PID.java:74-76 | the padded two-digit form of a byte is its high and low nibble and parses back |
| JavaText.LeftPad | src/main/java/cardiag/serial/SerialUtils.java:43 | leftPad keeps the string as the suffix and fills up to the size with the pad character |
| JavaText.Int32 | src/main/java/cardiag/serial/SerialUtils.java:57-58 | the int value congruent to x, x itself when in range |
| JavaText.Int32Add | src/main/java/cardiag/serial/SerialUtils.java:57 | adding to a wrapped value wraps the exact sum |
| JavaText.Int32Double | src/main/java/cardiag/serial/SerialUtils.java:58 | doubling a wrapped value wraps the exact double |
| JavaText.Trim | src/main/java/cardiag/serial/PortCommunication.java:88 | trim is empty exactly for an all-blank string, and otherwise has no blank at either end |
| JavaText.HexCharInjective | src/main/java/cardiag/obd2/Fault.java:85 | different digit values give different hex characters |
| JavaText.JavaSplit | src/main/java/cardiag/obd2/OBD2Standard.java:144 | String.split on one separator character: the whole string when the separator is absent, otherwise the pieces with trailing empty ones removed |
| JavaText.EqualsIgnoreCase | src/main/java/cardiag/user/Action.java:19 | equalsIgnoreCase: false for null, otherwise equal length and equal characters after ASCII upper-casing |
| Lookup.FirstWithCode | src/main/java/cardiag/obd2/Mode.java:32-37 | the first value with the code is found, and nothing is found exactly when no value has it |
| Lookup.FirstWithCodeFinds | src/main/java/cardiag/obd2/Mode.java:32-36 | a value whose code no other value shares is the one found |
| Modes.Hex | src/main/java/cardiag/obd2/Mode.java:22-24 | hex() is '0' followed by the code's hex digit |
| Modes.Code | src/main/java/cardiag/obd2/Mode.java:12-19 | the service codes CURRENT_DATA 1, FREEZE_FRAME_DATA 2, DIAGNOSTIC 3, CLEAR_TROUBLE_CODES 4, VEHICLE_INFO 9; `Modes.CodesDistinct` proves them pairwise distinct |
| Modes.HexParses | src/main/java/cardiag/obd2/Mode.java:22-31 | hex() parses back to the code |
| Modes.ParseHex | src/main/java/cardiag/obd2/Mode.java:27-38 | a result has the parsed code; null is an invalid mode; errors are InvalidMode or NumberFormat |
| Modes.CodesDistinct | src/main/java/cardiag/obd2/Mode.java:12 | every mode is listed and mode codes are pairwise distinct |
| Modes.ParseHexRoundTrip | src/main/java/cardiag/obd2/Mode.java:27-38 | parseHex(m.hex()) == m for every mode |
| Modes.ParseHexErrors | src/main/java/cardiag/obd2/Mode.java:28-37 | null and codes outside {1, 2, 3, 4, 9} are invalid modes; non-hex text fails to parse |
| Modes.ParseHexIff | src/main/java/cardiag/obd2/Mode.java:31-36 | parseHex returns m exactly when the text parses to m's code |
| Pids.Hex | src/main/java/cardiag/obd2/PID.java:74-76 | hex() is the two lowercase hex digits of the code |
| Pids.HexParses | src/main/java/cardiag/obd2/PID.java:74-76 | hex() parses back to the code |
| Pids.Valid | src/main/java/cardiag/obd2/PID.java:178-185 | valid returns the PID exactly when the mode is allowed, otherwise PidNotAllowed |
| Pids.Code | src/main/java/cardiag/obd2/PID.java:20-61 | the code of each PID constant, with the shared codes 0 (DIAGNOSTIC_CODES, CLEAR_TROUBLE_CODES, PIDS_SUPPORTED) and 1 (VIN_COUNT_OF_BYTES, MONITOR_STATUS) |
| Pids.AllowedModes | src/main/java/cardiag/obd2/PID.java:20-61 | the modes each constant is created with: one service for the mode-scoped PIDs, FREEZE_FRAME_DATA and CURRENT_DATA for the rest |
| Pids.SwitchTarget | src/main/java/cardiag/obd2/PID.java:92-169 | the constant the switch hands to valid: code 0 mode-scoped in three modes, then falling through into case 1; 7 selects long-term bank 2 and 8 short-term bank 1; None for the default case; `Pids.SwitchTargetCode` states which codes each target may come from |
| Pids.ParseHex | src/main/java/cardiag/obd2/PID.java:86-170 | a result is allowed in the mode; null is an invalid PID; errors are InvalidPid, NumberFormat or PidNotAllowed |
| Pids.SwitchTargetCode | src/main/java/cardiag/obd2/PID.java:92-169 | the switch selects the constant of the code itself except for 0 (falls into 1), 7 (→9) and 8 (→6) |
| Pids.CodeZero | src/main/java/cardiag/obd2/PID.java:93-110 | code 0 gives PIDS_SUPPORTED, DIAGNOSTIC_CODES, CLEAR_TROUBLE_CODES in their modes, and falls through to MONITOR_STATUS / VIN_COUNT_OF_BYTES otherwise |
| Pids.CodeOneNotAllowed | src/main/java/cardiag/obd2/PID.java:104-110 | code 1 in DIAGNOSTIC or CLEAR_TROUBLE_CODES is not allowed |
| Pids.CodesSevenAndEight | src/main/java/cardiag/obd2/PID.java:121-124 | code 7 gives long-term bank 2 and code 8 short-term bank 1 |
| Pids.NeverParsed | src/main/java/cardiag/obd2/PID.java:119-126 | long-term bank 1 and short-term bank 2 are never the result |
| Pids.UnknownCode | src/main/java/cardiag/obd2/PID.java:167-168 | a code no case lists is an invalid PID |
| Pids.SwitchSelects | src/main/java/cardiag/obd2/PID.java:20-61 | every other constant is selected by its own code in each mode it allows |
| Pids.ParseHexRoundTrip | src/main/java/cardiag/obd2/PID.java:86-170 | parseHex(p.hex(), m) == p for every allowed mode, except the two bank constants |
| Pids.ParseHexSelects | src/main/java/cardiag/obd2/PID.java:91-166 | text parsing to a code whose switch target is allowed in the mode gives that target |
| FuelStatuses.ParseHex | src/main/java/cardiag/obd2/FuelStatus.java:53-66 | a result has the parsed code; null is rejected; errors are InvalidHexCode, NumberFormat or UnknownStatus |
| FuelStatuses.CodeUnique | src/main/java/cardiag/obd2/FuelStatus.java:11-16 | each status is listed once with its own code |
| FuelStatuses.Code | src/main/java/cardiag/obd2/FuelStatus.java:11-16 | getCode of each status, 0x00 to 0x07 |
| FuelStatuses.ParseHexIff | src/main/java/cardiag/obd2/FuelStatus.java:58-63 | parseHex returns s exactly when the text parses to s's code |
| FuelStatuses.ParseHexRange | src/main/java/cardiag/obd2/FuelStatus.java:58-65 | every value 0..7 decodes to the status with that code, any other is unknown |
| FuelStatuses.ParseHexMalformed | src/main/java/cardiag/obd2/FuelStatus.java:54-58 | null is rejected and non-hex text fails to parse |
| FuelStatuses.ParseHexRoundTrip | src/main/java/cardiag/obd2/FuelStatus.java:31-66 | parseHex of the hex of getCode() is the status |
| EcuCompatibilities.ParseHex | src/main/java/cardiag/obd2/EcuCompatibility.java:51-64 | a result has the parsed code; null is rejected; errors are InvalidHexCode, NumberFormat or UnknownStatus |
| EcuCompatibilities.CodeUnique | src/main/java/cardiag/obd2/EcuCompatibility.java:10-14 | each constant is listed once with its own code |
| EcuCompatibilities.Code | src/main/java/cardiag/obd2/EcuCompatibility.java:10-14 | getCode of each constant, 0x01-0x06 and 0x08-0x0D |
| EcuCompatibilities.CodeRange | src/main/java/cardiag/obd2/EcuCompatibility.java:10-14 | the codes are 0x01-0x06 and 0x08-0x0D |
| EcuCompatibilities.ParseHexIff | src/main/java/cardiag/obd2/EcuCompatibility.java:56-61 | parseHex returns s exactly when the text parses to s's code |
| EcuCompatibilities.ParseHexRange | src/main/java/cardiag/obd2/EcuCompatibility.java:56-63 | values 1-6 and 8-13 decode to their constant; 0, 7 and anything above 13 are unknown |
| EcuCompatibilities.ParseHexMalformed | src/main/java/cardiag/obd2/EcuCompatibility.java:52-56 | null is rejected and non-hex text fails to parse |
| EcuCompatibilities.ParseHexRoundTrip | src/main/java/cardiag/obd2/EcuCompatibility.java:29-64 | parseHex of the hex of getCode() is the constant |
| AirStatuses.ParseHex | src/main/java/cardiag/obd2/AirStatus.java:52-65 | a result has the parsed code; null is rejected; errors are InvalidHexCode, NumberFormat or UnknownStatus |
| AirStatuses.CodeUnique | src/main/java/cardiag/obd2/AirStatus.java:11-15 | each status is listed once with its own code |
| AirStatuses.Code | src/main/java/cardiag/obd2/AirStatus.java:11-15 | getCode of each status, 0x00 to 0x02 |
| AirStatuses.ParseHexIff | src/main/java/cardiag/obd2/AirStatus.java:57-62 | parseHex returns s exactly when the text parses to s's code |
| AirStatuses.ParseHexRange | src/main/java/cardiag/obd2/AirStatus.java:57-64 | 0, 1, 2 decode to UPSTREAM, DOWNSTREAM, OFF_OR_OUTSIDE; any other value is unknown |
| AirStatuses.ParseHexMalformed | src/main/java/cardiag/obd2/AirStatus.java:53-57 | null is rejected and non-hex text fails to parse |
| AirStatuses.ParseHexRoundTrip | src/main/java/cardiag/obd2/AirStatus.java:30-65 | parseHex of the hex of getCode() is the status |
| Actions.FirstNamed | src/main/java/cardiag/user/Action.java:18-22 | the first action whose name matches ignoring case, none exactly when no name matches |
| Actions.Parse | src/main/java/cardiag/user/Action.java:17-24 | a result's name equals the text ignoring case; otherwise InvalidAction |
| Actions.NamesDistinct | src/main/java/cardiag/user/Action.java:12-14 | no text matches two action names |
| Actions.ParseIff | src/main/java/cardiag/user/Action.java:17-24 | parse returns a exactly when the text is a's name up to case |
| Actions.ParseRoundTrip | src/main/java/cardiag/user/Action.java:17-22 | parse(a.name()) == a |
| Actions.ParseLowerCase | src/main/java/cardiag/user/Action.java:19 | "report" parses to REPORT |
| Actions.ParseRejects | src/main/java/cardiag/user/Action.java:19-23 | null and unmatched text are invalid actions |
| MonitorStatuses.MonitorStatus.constructor | src/main/java/cardiag/obd2/MonitorStatus.java:13-24 | every field starts false or 0 |
| MonitorStatuses.MonitorStatus.SetMil | src/main/java/cardiag/obd2/MonitorStatus.java:26-28 | stores the flag, other fields unchanged |
| MonitorStatuses.MonitorStatus.SetEmissionRelatedDtcs | src/main/java/cardiag/obd2/MonitorStatus.java:30-32 | stores the count, other fields unchanged |
| MonitorStatuses.MonitorStatus.SetIgnition | src/main/java/cardiag/obd2/MonitorStatus.java:37-39 | stores the flag, other fields unchanged |
| MonitorStatuses.MonitorStatus.SetMissfire | src/main/java/cardiag/obd2/MonitorStatus.java:41-44 | stores (available, incomplete) in that order, other fields unchanged |
| MonitorStatuses.MonitorStatus.SetFuel | src/main/java/cardiag/obd2/MonitorStatus.java:46-49 | stores the pair, other fields unchanged |
| MonitorStatuses.MonitorStatus.SetComponents | src/main/java/cardiag/obd2/MonitorStatus.java:52-55 | stores the pair, other fields unchanged |
| MonitorStatuses.MonitorStatus.SetReservedBitB7 | src/main/java/cardiag/obd2/MonitorStatus.java:57-59 | stores the flag, other fields unchanged |
| Reports.CopyOf | src/main/java/cardiag/obd2/Report.java:34 | Arrays.copyOf gives a fresh array with the same contents |
| Reports.Report.constructor | src/main/java/cardiag/obd2/Report.java:11-25 | references start null and numbers zero |
| Reports.Report.GetSupportedPids | src/main/java/cardiag/obd2/Report.java:28-30 | a fresh array equal to the stored one; NullPointer before any set |
| Reports.Report.SetSupportedPids | src/main/java/cardiag/obd2/Report.java:33-35 | stores a fresh copy of the argument; null fails with NullPointer and changes nothing |
| Reports.Report.SetMonitorStatus | src/main/java/cardiag/obd2/Report.java:43-45 | stores the value, no other field changes |
| Reports.Report.SetDistanceSinceErrorCodesCleared | src/main/java/cardiag/obd2/Report.java:53-55 | stores the value, no other field changes |
| Reports.Report.SetDistanceWithMalfunction | src/main/java/cardiag/obd2/Report.java:63-65 | stores the value, no other field changes |
| Reports.Report.SetEngineCoolantTemperature | src/main/java/cardiag/obd2/Report.java:73-75 | stores the value, no other field changes |
| Reports.Report.SetEngineLoad | src/main/java/cardiag/obd2/Report.java:83-85 | stores the value, no other field changes |
| Reports.Report.SetFuelInjectionTiming | src/main/java/cardiag/obd2/Report.java:93-95 | stores the value, no other field changes |
| Reports.Report.SetFuelLevelInput | src/main/java/cardiag/obd2/Report.java:103-105 | stores the value, no other field changes |
| Reports.Report.SetFuelRate | src/main/java/cardiag/obd2/Report.java:113-115 | stores the value, no other field changes |
| Reports.Report.SetFuelStatus | src/main/java/cardiag/obd2/Report.java:123-125 | stores the value, no other field changes |
| Reports.Report.SetFuelTrimPercentShortTerm | src/main/java/cardiag/obd2/Report.java:133-135 | stores the value, no other field changes |
| Reports.Report.SetFuelTrimPercentLongTerm | src/main/java/cardiag/obd2/Report.java:143-145 | stores the value, no other field changes |
| Reports.Report.SetIntakeAirTemperature | src/main/java/cardiag/obd2/Report.java:153-155 | stores the value, no other field changes |
| Serial.PromptIndex | src/main/java/cardiag/serial/PortCommunication.java:82 | the first chunk ending with '>', none before it; none exactly when no chunk has the prompt |
| Serial.ChunksRead | src/main/java/cardiag/serial/PortCommunication.java:71-86 | reading stops just after the prompt chunk when it comes within the polls, otherwise after the polls run out |
| Serial.Framed | src/main/java/cardiag/serial/PortCommunication.java:81-83 | the buffer is every chunk followed by '\r', without the final '>' and '\r' |
| Serial.TrimmedLines | src/main/java/cardiag/serial/PortCommunication.java:93-98 | the kept lines are non-empty with no blank at either end, at most one per piece |
| Serial.Lines | src/main/java/cardiag/serial/PortCommunication.java:87-98 | an all-blank buffer is "no response"; otherwise a non-empty list of lines without '\r' |
| Serial.OkOutcome | src/main/java/cardiag/serial/PortCommunication.java:145-152 | passes exactly when the last line equals OK ignoring case; a failed read is passed on |
| Serial.Translate | src/main/java/cardiag/serial/PortCommunication.java:132-135 | "1" exactly for true, "0" for false |
| Serial.TrimmedLinesNonEmpty | src/main/java/cardiag/serial/PortCommunication.java:91-98 | dropping empty pieces first, as StringUtils.split does, changes no line |
| Serial.TrimmedLinesAppend | src/main/java/cardiag/serial/PortCommunication.java:93-98 | the lines of joined pieces are the lines of each part, in order |
| Serial.TrimmedLinesWitness | src/main/java/cardiag/serial/PortCommunication.java:93-98 | a piece that is not all blank yields a line |
| Serial.PiecesBlank | src/main/java/cardiag/serial/PortCommunication.java:88-91 | a buffer whose '\r'-pieces are all blank is itself blank |
| Serial.LinesNotEmpty | src/main/java/cardiag/serial/PortCommunication.java:88-98 | a buffer that is not all blank gives at least one line |
| Serial.NoCarriageReturn | src/main/java/cardiag/serial/PortCommunication.java:91-98 | lines trimmed from pieces without '\r' have none |
| Serial.TrimmedIsTrim | src/main/java/cardiag/serial/PortCommunication.java:94 | a string with no blank at either end is its own trim |
| Serial.ReceivedLines | src/main/java/cardiag/serial/PortCommunication.java:91-98 | every line read is non-empty, equal to its own trim and free of '\r' |
| Serial.TimeoutIff | src/main/java/cardiag/serial/PortCommunication.java:71-74 | the read times out exactly when no prompt chunk comes within the polls |
| Serial.Receive | src/main/java/cardiag/serial/PortCommunication.java:64-105 | what readResponse answers for the queued chunks: the lines of the framed buffer up to the prompt chunk, or Timeout when no prompt comes within the polls |
| Serial.AppendedPieces | src/main/java/cardiag/serial/PortCommunication.java:81-91 | with no '\r' inside the chunks, the buffer's pieces are exactly the chunks |
| Serial.ChunksAreLines | src/main/java/cardiag/serial/PortCommunication.java:79-98 | chunk boundaries are line boundaries: the lines are the trimmed non-blank chunks up to the prompt chunk without its '>' |
| Serial.PlainLines | src/main/java/cardiag/serial/PortCommunication.java:91-98 | the lines of a buffer of chunks without '\r' are the trimmed non-blank chunks |
| Serial.CollectLines | src/main/java/cardiag/serial/PortCommunication.java:92-98 | the loop keeps exactly the trimmed non-blank pieces, in order |
| Serial.SplitLines | src/main/java/cardiag/serial/PortCommunication.java:87-98 | the blank check and split compute Lines of the buffer |
| Serial.FramedPrefix | src/main/java/cardiag/serial/PortCommunication.java:81-83 | appending the prompt chunk and cutting two characters leaves the framed buffer |
| Serial.ChunkAppended | src/main/java/cardiag/serial/PortCommunication.java:81 | each chunk read grows the buffer by the chunk and a '\r' |
| Serial.PromptRead | src/main/java/cardiag/serial/PortCommunication.java:79-85 | a prompt chunk at poll c means c + 1 chunks read and the lines of the framed buffer |
| Serial.PromptMissed | src/main/java/cardiag/serial/PortCommunication.java:71-78 | no prompt within the polls means every polled chunk read and a timeout |
| Serial.PromptedLines | src/main/java/cardiag/serial/PortCommunication.java:82-101 | cutting the prompt and splitting the buffer gives what readResponse answers |
| Serial.PortCommunication.constructor | src/main/java/cardiag/serial/PortCommunication.java:39-54 | a port with the given queued chunks, nothing written, and the poll bound |
| Serial.PortCommunication.ReadResponse | src/main/java/cardiag/serial/PortCommunication.java:64-105 | answers Receive of the queued chunks, consumes exactly the chunks read, writes nothing |
| Serial.PortCommunication.Writeln | src/main/java/cardiag/serial/PortCommunication.java:114-124 | writes each part, then "\r\n"; reads nothing |
| Serial.PortCommunication.CheckOkResponse | src/main/java/cardiag/serial/PortCommunication.java:143-153 | reads one response and passes exactly when its last line is OK ignoring case |
| Serial.PortCommunication.At | src/main/java/cardiag/serial/PortCommunication.java:163-167 | writes "AT", the command and CR LF, and answers the first line of the response |
| Serial.PortCommunication.SetEcho | src/main/java/cardiag/serial/PortCommunication.java:176-180 | writes "ATE" and translate(on), then requires OK |
| Serial.PortCommunication.SetLineTermination | src/main/java/cardiag/serial/PortCommunication.java:189-193 | writes "ATL" and translate(on), then requires OK |
| Serial.PortCommunication.Reset | src/main/java/cardiag/serial/PortCommunication.java:201-209 | writes "AT" "Z" and fails only when the read fails, the null check being unreachable |
| Serial.WrittenText | src/main/java/cardiag/serial/PortCommunication.java:117-120 | the text on the wire is the previous text, the parts, then CR LF |
| Obd2.Request | src/main/java/cardiag/obd2/OBD2Standard.java:122-134 | the params are mode.hex(), pid.hex(), then the extra parameters; null gives just two |
| Obd2.RequestText | src/main/java/cardiag/obd2/OBD2Standard.java:122-135 | the request text is four hex digits that parse back to the mode and PID codes, the parameters, then CR LF |
| Obd2.DataOffset | src/main/java/cardiag/obd2/OBD2Standard.java:158-164 | data starts at token 1 or token 2 |
| Obd2.SecondPid | src/main/java/cardiag/obd2/OBD2Standard.java:163 | PID.parseHex(token 1, mode): a missing token 1 is an index error, unparsable text NumberFormat, a code the switch does not list InvalidPid, and otherwise the switch target when the mode allows it, else PidNotAllowed |
| Obd2.ClassifyLineSpec | src/main/java/cardiag/obd2/OBD2Standard.java:140-170 | NO DATA exactly for "NO DATA"; an error response carrying all tokens exactly when token 0 is 7F; otherwise data after the mode's offset (null when none), with the PID SecondPid reads from token 1 exactly for modes other than DIAGNOSTIC/CLEAR_TROUBLE_CODES; a line is accepted whenever its first token has 2 characters, is not 7F and (for PID modes) token 1 parses; a failure is InvalidResponse for a bad first token, an index error for no token, or SecondPid's error |
| Obd2.ClassifyLine | src/main/java/cardiag/obd2/OBD2Standard.java:140-170 | the response for one line: NO DATA first, otherwise the line split on spaces and handed to ClassifyTokens; its cases are stated by `Obd2.ClassifyLineSpec` |
| Obd2.ClassifyTokens | src/main/java/cardiag/obd2/OBD2Standard.java:145-170 | the checks on the tokens in Java order: no token is an index error, a first token not 2 characters is InvalidResponse, 7F is an error response, otherwise mode offset, PID and data |
| Obd2.ClassifyTokensSpec | src/main/java/cardiag/obd2/OBD2Standard.java:144-170 | the same for the tokens of a line other than NO DATA, with the PID and the error taken from whatever the PID token parses to |
| Obd2.CollectSpec | src/main/java/cardiag/obd2/OBD2Standard.java:137-173 | at most one response per result, in order; only the last may stop; an early end only after a stopping response; an error comes from some result |
| Obd2.Collect | src/main/java/cardiag/obd2/OBD2Standard.java:137-173 | the loop of ask over classified lines: the first failure aborts, a NO DATA or error response is added and ends the list |
| Obd2.ClassifySpec | src/main/java/cardiag/obd2/OBD2Standard.java:137-173 | ask yields at most one response per line, in line order, each the classification of its line; only the last may be NO DATA or 7F |
| Obd2.Classify | src/main/java/cardiag/obd2/OBD2Standard.java:137-173 | ask's result for the received lines: Collect of the per-line classifications |
| Obd2.CollectEvery | src/main/java/cardiag/obd2/OBD2Standard.java:138-172 | without a stopping response every result gives exactly one response |
| Obd2.ClassifyEveryLine | src/main/java/cardiag/obd2/OBD2Standard.java:137-173 | without NO DATA or 7F lines, exactly one response per line |
| Obd2.CollectStops | src/main/java/cardiag/obd2/OBD2Standard.java:140-154 | the first stopping response at n ends the answer with n + 1 responses |
| Obd2.NoDataStops | src/main/java/cardiag/obd2/OBD2Standard.java:140-143 | a NO DATA line ends the answer with a no-data response; later lines are never looked at |
| Obd2.OneLine | src/main/java/cardiag/obd2/OBD2Standard.java:187-194 | exactly one response is returned; more is TooManyResponses, none an index error |
| Obd2.GetMode | src/main/java/cardiag/obd2/OBD2Standard.java:198-200 | FREEZE_FRAME_DATA exactly when freezed, else CURRENT_DATA |
| Obd2.DataToken | src/main/java/cardiag/obd2/OBD2Standard.java:343 | getData()[i]: NullPointer for null data, an index error past the end |
| Obd2.DataValue | src/main/java/cardiag/obd2/OBD2Standard.java:343 | Integer.parseInt of the data token, or the error of reading or parsing it |
| Obd2.Temperature | src/main/java/cardiag/obd2/OBD2Standard.java:336-345 | null for an error response; a byte A gives A − 40 in [−40, 215]; a parse failure is passed on |
| Obd2.Distance | src/main/java/cardiag/obd2/OBD2Standard.java:480-500 | null for an error response; bytes A B give A·256 + B in [0, 65535]; a missing or unparsable first token fails with its error, and otherwise so does a missing or unparsable second token |
| Obd2.FuelStatusOf | src/main/java/cardiag/obd2/OBD2Standard.java:230-234 | null exactly for an error response; a first data byte 0x00-0x07 gives the status with that code, any other parsed value UnknownStatus; a missing or unparsable token fails with its error |
| Obd2.EcuCompatibilityOf | src/main/java/cardiag/obd2/OBD2Standard.java:241-244 | null exactly for an error response; a first data byte 0x01-0x06 or 0x08-0x0D gives the constant with that code, any other parsed value UnknownStatus; a missing or unparsable token fails with its error |
| Obd2.AirStatusOf | src/main/java/cardiag/obd2/OBD2Standard.java:553-556 | null exactly for an error response; a first data byte 0x00-0x02 gives the status with that code, any other parsed value UnknownStatus; a missing or unparsable token fails with its error |
| Obd2.SupportedPidsOf | src/main/java/cardiag/obd2/OBD2Standard.java:220-223 | null for an error response; otherwise the conversion of all data tokens |
| Obd2.TokenBits | src/main/java/cardiag/obd2/OBD2Standard.java:261-264 | a data token converts to eight bits exactly when it is a byte, the bits of its value |
| Obd2.MonitorStatusOf | src/main/java/cardiag/obd2/OBD2Standard.java:257-274 | null for an error response; bytes A to D must convert; the fields come from A and B |
| Obd2.MilAndCount | src/main/java/cardiag/obd2/OBD2Standard.java:266-267 | the MIL is A ≥ 128 and the DTC count is A mod 128 |
| Obd2.ByteOrder | src/main/java/cardiag/obd2/OBD2Standard.java:268-272 | element j of a converted byte is bit 7 − j |
| Obd2.MonitorFieldsOfBytes | src/main/java/cardiag/obd2/OBD2Standard.java:260-272 | MIL = A7, count = A6..A0, misfire = (B0, B4), fuel = (B1, B5), components = (B2, B6), ignition = B3, reserved = B7 |
| Obd2.MonitorFields | src/main/java/cardiag/obd2/OBD2Standard.java:265-272 | the setter arguments taken from the bit arrays of bytes A and B; `Obd2.MonitorFieldsOfBytes` states them per bit of the bytes |
| Obd2.Slot | src/main/java/cardiag/obd2/OBD2Standard.java:293-295 | slot i decodes exactly when data[2i] and data[2i+1] are bytes, to the code of their bits |
| Obd2.Kept | src/main/java/cardiag/obd2/OBD2Standard.java:297-299 | a fault is kept exactly when its code is not P0000 |
| Obd2.Combine | src/main/java/cardiag/obd2/OBD2Standard.java:291-313 | the three slots in order, P0000 left out; the first failing slot aborts |
| Obd2.ResponseFaults | src/main/java/cardiag/obd2/OBD2Standard.java:292-313 | at most three reportable faults, and only from at least six data tokens |
| Obd2.GatherSpec | src/main/java/cardiag/obd2/OBD2Standard.java:291-316 | succeeds exactly when every response does, keeps only reportable faults, fails with the first error |
| Obd2.Gather | src/main/java/cardiag/obd2/OBD2Standard.java:291-316 | the fault lists of the responses joined in order, the first failing response aborting; `Obd2.GatherSpec` states its success and error cases |
| Obd2.GatherSnoc | src/main/java/cardiag/obd2/OBD2Standard.java:291-314 | one more response appends its faults or aborts |
| Obd2.ReportableAppend | src/main/java/cardiag/obd2/OBD2Standard.java:297-312 | joining reportable faults stays reportable |
| Obd2.FaultsEach | src/main/java/cardiag/obd2/OBD2Standard.java:291-314 | one fault list per response |
| Obd2.FaultsEachReportable | src/main/java/cardiag/obd2/OBD2Standard.java:291-314 | every decoded response reports only real five-character codes |
| Obd2.AllFaults | src/main/java/cardiag/obd2/OBD2Standard.java:291-316 | the loop keeps only reportable faults |
| Obd2.AllFaultsOk | src/main/java/cardiag/obd2/OBD2Standard.java:291-316 | the report decodes exactly when every response decodes on its own, with the loop's per-response results tied to ResponseFaults |
| Obd2.ErrorReport | src/main/java/cardiag/obd2/OBD2Standard.java:280-316 | no responses give no faults, an error first response null, NO DATA first no faults; otherwise only reportable faults |
| Obd2.ZeroSlot | src/main/java/cardiag/obd2/OBD2Standard.java:293-299 | two zero bytes decode to P0000 |
| Obd2.ZeroDataNoFaults | src/main/java/cardiag/obd2/OBD2Standard.java:291-313 | any response whose data are six zero bytes, such as the line 00 00 00 00 00 00, reports no fault |
| Obd2.FuelTrimPid | src/main/java/cardiag/obd2/OBD2Standard.java:429-438 | bank 1 or 2 gives code 6 + long-term + 2·(bank − 1); other banks are InvalidBank |
| Obd2.CatalystPid | src/main/java/cardiag/obd2/OBD2Standard.java:448-468 | the sensor is checked before the bank; the code is 0x3c + 2·(sensor − 1) + (bank − 1) |
| Obd2.GettersAskAllowedPids | src/main/java/cardiag/obd2/OBD2Standard.java:217-256 | every getter asks for a PID in a mode that PID allows |
| Obd2Standards.CollectStep | src/main/java/cardiag/obd2/OBD2Standard.java:138-172 | one loop turn aborts, ends with, or extends the responses so far |
| Obd2Standards.ClassifyLines | src/main/java/cardiag/obd2/OBD2Standard.java:137-173 | the loop of ask computes Classify of the lines |
| Obd2Standards.ExchangeNotEmpty | src/main/java/cardiag/obd2/OBD2Standard.java:136-194 | a successful exchange has between one response and one per line, so askOneLine never fails on get(0) |
| Obd2Standards.ConvertToken | src/main/java/cardiag/obd2/OBD2Standard.java:261-264 | converting one data token computes TokenBits |
| Obd2Standards.DecodeSlot | src/main/java/cardiag/obd2/OBD2Standard.java:293-295 | converting and decoding two tokens computes Slot |
| Obd2Standards.DecodeResponse | src/main/java/cardiag/obd2/OBD2Standard.java:292-313 | the loop body computes ResponseFaults |
| Obd2Standards.GatherStops | src/main/java/cardiag/obd2/OBD2Standard.java:291-314 | the first failing response decides the error |
| Obd2Standards.GatherStep | src/main/java/cardiag/obd2/OBD2Standard.java:291-314 | one loop turn aborts or appends the response's faults |
| Obd2Standards.DecodeAll | src/main/java/cardiag/obd2/OBD2Standard.java:291-316 | the loop of getErrorReport computes AllFaults |
| Obd2Standards.NewMonitorStatus | src/main/java/cardiag/obd2/OBD2Standard.java:265-272 | the setter calls leave a fresh status with the fields of bytes A and B |
| Obd2Standards.DecodeMonitorStatus | src/main/java/cardiag/obd2/OBD2Standard.java:257-274 | null for an error response, else a fresh status with MonitorStatusOf's fields |
| Obd2Standards.FillParams | src/main/java/cardiag/obd2/OBD2Standard.java:122-134 | the params array is mode hex, PID hex, then the extra parameters |
| Obd2Standards.Obd2Standard.constructor | src/main/java/cardiag/obd2/OBD2Standard.java:39-43 | the standard talks through the given port |
| Obd2Standards.Obd2Standard.WriteRequest | src/main/java/cardiag/obd2/OBD2Standard.java:122-135 | writes the request parts and CR LF, reads nothing |
| Obd2Standards.Obd2Standard.Ask | src/main/java/cardiag/obd2/OBD2Standard.java:120-174 | writes the request, consumes the chunks read, and answers Classify of the lines received |
| Obd2Standards.Obd2Standard.AskOneLine | src/main/java/cardiag/obd2/OBD2Standard.java:185-195 | ask, then exactly one response or an error |
| Obd2Standards.Obd2Standard.GetSupportedPids | src/main/java/cardiag/obd2/OBD2Standard.java:217-224 | service $01 PID $00, answered by SupportedPidsOf of the single response |
| Obd2Standards.Obd2Standard.GetFuelStatus | src/main/java/cardiag/obd2/OBD2Standard.java:227-235 | PID $03 in the chosen mode, answered by FuelStatusOf |
| Obd2Standards.Obd2Standard.GetEcuCompatibility | src/main/java/cardiag/obd2/OBD2Standard.java:238-245 | service $01 PID $1C, answered by EcuCompatibilityOf |
| Obd2Standards.Obd2Standard.ClearTroubleCodes | src/main/java/cardiag/obd2/OBD2Standard.java:248-251 | service $04; fails exactly when askOneLine fails |
| Obd2Standards.Obd2Standard.GetMonitorStatus | src/main/java/cardiag/obd2/OBD2Standard.java:254-275 | service $01 PID $01; null on an error answer, else a fresh status with MonitorStatusOf's fields |
| Obd2Standards.Obd2Standard.GetErrorReport | src/main/java/cardiag/obd2/OBD2Standard.java:278-317 | service $03, answered by ErrorReport of all responses |
| Obd2Standards.Obd2Standard.GetTemperature | src/main/java/cardiag/obd2/OBD2Standard.java:336-426 | the thermometer's PID in the chosen mode, answered by Temperature |
| Obd2Standards.Obd2Standard.GetDistance | src/main/java/cardiag/obd2/OBD2Standard.java:480-501 | the odometer's PID in the chosen mode, answered by Distance |
| Obd2Standards.Obd2Standard.GetSecondaryAirStatus | src/main/java/cardiag/obd2/OBD2Standard.java:550-557 | PID $12 in the chosen mode, answered by AirStatusOf |

## Left out

- **Serial I/O**: the jssc `SerialPort` (open, parameters, read, write, close) and `SerialUtils.getPortNames`
  are not modelled. The port is the `input` chunk queue and the `output` sequence.
- Serial.PortCommunication.ReadResponse: the wall-clock timeout and its `Thread.yield` busy-wait become
  `maxPolls`, a bound on the number of polls that may pass before a prompt chunk arrives. An empty poll
  counts as a poll. The exact timing is not modelled.
- **Floating-point getters** are not modelled, because IEEE double rounding is out of scope:
  - engine load, ethanol, fuel level and commanded EGR (A·100/255);
  - fuel trim and EGR error ((A−128)·100/128);
  - catalyst temperature, injection timing and fuel rate.

  Only the PID choice of the fuel-trim and catalyst getters is modelled (`FuelTrimPid`, `CatalystPid`).
- **getVIN**: it returns `List.toString()` of the responses and logs a decimal parse. It has no contract
  beyond those of `AskOneLine` and `Ask`, which are modelled.
- **createReport and reset**: the `OBD2Standard` constructor, `reset` and `createReport` sequences of AT
  commands and setters are not modelled. The `Obd2Standard` constructor takes an already open port.
- **Descriptions and text output**: `toString`, the logging, the enumeration descriptions and
  `ReflectionToStringBuilder` output are not modelled.
- JavaText.EqualsIgnoreCase: case folding is ASCII only. Java's `equalsIgnoreCase` compares the characters
  after both `Character.toUpperCase` and `Character.toLowerCase`, so some non-ASCII input is folded onto ASCII
  letters and the model rejects it:
  - `Actions.Parse`: a name spelt with U+017F (long s, upper-cased to `S`) or U+212A (Kelvin sign,
    lower-cased to `k`) is accepted by `Action.parse` and rejected by the model;
  - `Serial.OkOutcome` and `Serial.PortCommunication.CheckOkResponse`: a last line `O` followed by U+212A
    passes Java's OK check and fails the model's.
- JavaText.ParseHexInt: only the ASCII digits `0-9`, `a-f` and `A-F` are hex digits. `Integer.parseInt(s, 16)`
  goes through `Character.digit`, which also accepts every Unicode decimal digit (such as U+FF11, fullwidth 1)
  and the fullwidth letters U+FF21-U+FF26 and U+FF41-U+FF46. Tokens made of such characters are rejected with
  NumberFormat by the model and read as numbers by Java. This reaches every `parseHex`
  (`Modes.ParseHex`, `Pids.ParseHex`, `FuelStatuses.ParseHex`, `EcuCompatibilities.ParseHex`,
  `AirStatuses.ParseHex`), `SerialUtils.Convert` and the data decoders of `Obd2` (`DataValue` and the
  getters built on it).
- SerialUtils.ConvertHexToBooleanArray: the method fills a local array but returns its contents as a
  sequence. No caller changes the array it receives.
- **Report fields**:
  - Reports.Report: the double fields are `real` and the fuel status is an `Option`.
  - The scalar getters are plain field reads, so a setter's contract that its field holds the new value is the
    getter's result.
- **Null array elements**: the elements of `hexParams` and the tokens of a line are never null in the
  model. Java allows null elements in `hexParams`.
- Obd2.Response: the older `Response.java` constructor without `isError` is not modelled. The model follows
  `OBD2Standard.java`.
