# Smart light firmware: a verified model

The firmware drives a WS2812 strip from an ESP8266. It is provisioned over a web page, listens to a server
over MQTT, and reads a presence radar over a UART. This project models the logic of that firmware in Dafny
and proves what it keeps to:

- **Topics** (`CStrings`, `MacAddress`, `TopicTable`, `TopicCodes`, `TopicParser`, `TopicMaker`,
  `TopicRoundTrip`). A topic is printed from a fixed head, the MAC in Base16 (section 8 of RFC 4648) and a
  suffix, and parsed by a pointer-walking loop into seven codes, each found by `strstr` over a packed keyword
  table. The loop is a method over offsets. Printing and then parsing gives back the declared codes,
  for every MAC.
- **Commands** (`Decimal`, `LightCommands`). What a delivered message does to the lamp's globals and what the
  device publishes in reply; over a run of messages every field holds the last value given for it.
- **Provisioning** (`ErrMark`, `WifiStore`, `WifiStation`, `WebSetup`, `BootLoop`). The stored credentials, the
  station attempt with its retry counter, the credential form, and the `app_main` loop, over any run of boots,
  submissions, WiFi events, `nvs_open` failures and power cuts.
- **Strip** (`PixelEncoder`, `LedStrip`, `LegacyEncoder`, `ColourMath`, `StatusTick`). The bit loops with their
  eight-bit wraparound, whole-strip refreshes, the older encoder, HSV to RGB over exact reals, and the tick that
  chooses the colour.
- **Radar** (`RadarDecoder`). Frames, presence, and the publication of presence changes.
- **The device** (`SmartLight`). Connects, radar buffers, messages and ticks in any order, everything the device
  subscribes to and publishes, and the path from topic text and payload to the colour of every pixel.
- **The device in figures** (`DeviceLaws`). The same device without the model's own names: received bytes, topic
  text, code numbers, pixel values and wire bytes, each law for every state or every run.

Conventions. State the C code keeps in globals, buffers and event bits is kept in classes; each method is tied to
a function of the old state, and the theorems are about those functions. C strings are NUL-free Dafny strings.
Where C gives a step no meaning the model says so instead of choosing a value: a slot is `Undefined` when a keyword
search misses, and a parse ends `Stray` when a separator is missing or a piece overruns the 20-byte `tmp`.
The outside world is a parameter: event sequences, requests, `nvs_open` results, the hour. A wait that never ends,
or a power cut during it, is the outcome `Waiting`.

Facts about the code that the theorems bring out:

- The "too few segments" result of the topic parser is returned for the empty topic only; a non-empty topic with
  too few separators has no defined result (`TopicParser.MqttTopicRes`).
- The topic heads grow by one MAC on every CONNECTED event, so a subscribed topic has codes exactly while at most
  one connect has happened (`TopicRoundTrip.SubscribedTopicAfterConnects`).
- A comment in mqtt_work.h calls the table widths lengths with terminator; the rows have no terminator, and
  `aiot**` is cut to five characters (`TopicCodes.NamespaceSearch`).
- The retry arm after a failed setup (main/main_app.c:75-80) is dead: setup only ever returns success.
- A seven-character password passes the check of the stored configuration (`WifiStore.PersistenceRoundTrip`).
- A light strength, once non-zero, can never be commanded back to zero (`LightCommands.StrengthStaysNonZero`).
- The 0x59 test of the radar decoder decides nothing but a log line (`RadarDecoder.Radar.RadarDataProcess`).
- A grey level is a byte exactly for strengths in 0..100 (`StatusTick.LightnessIsByte`).

Main results, each over all inputs or all runs:

- `TopicParser.MqttTopicRes` with `TopicTable.LookupIsFirstKeyword` and `TopicRoundTrip.RoundTrip`: the parsing loop
  is a plain split and keyword search, and inverts the printing of topics; `TopicRoundTrip.ConnectAndParse` runs the
  whole path through the code's own steps.
- `BootLoop.AppMain` with `StoreInvariantHolds`, `SubmissionReachesStation` and `TriedCredentialsWereSubmitted`: the
  loop refines a loop-free boot, and over any run of boots only submitted credentials are ever tried.
- `SmartLight.Board.Handle` with `WireDecodesToShown`, `PublishesParse`, `PublishedPresenceAlternates` and
  `ServerLightsTheStrip`: over any run of the device, what the strip is sent, what is published, and what a server's
  commands come to.
- `ColourMath.HsvToRgb` with `InverseOfChannels`; `PixelEncoder.StreamRoundTrip` with `LedStrip.FillByte`;
  `LegacyEncoder.Ws2812bSend24bit`: the conversion and both encoders lose nothing.
- `DeviceLaws.DecodeTable`, `MessageTable`, `SubscribedAsText` and `TickByTheClock`, with `TopicCodes.HeadTablesInFull`,
  `BootLoop.SubmissionByLength` and `SubmittedIsTried`: what bytes, texts and lengths come to, with every number of the
  code written out.
- `LightCommands.CommandFold` and `RadarDecoder.AnnouncementsAreChanges`: what any run of messages, and of radar
  buffers, comes to.

## Model

| member | source | states |
|---|---|---|
| CStrings.StrStr | main/mqtt_work.c:395 | `strstr`: the least offset at which the needle occurs, or none when it occurs nowhere |
| CStrings.StrChrIsFirst | main/mqtt_work.c:353 | `strchr`: the character is at the offset found and nowhere before it, or nowhere at all |
| CStrings.JoinOfCut | main/mqtt_work.c:349-375 | the pieces of a split at the first k slashes rebuild the text, and only the last may hold a slash |
| CStrings.CutOfJoin | main/mqtt_work.c:349-375 | the pieces are unique: cutting joined slash-free pieces gives exactly those pieces back |
| CStrings.CutNeedsSlashes | main/mqtt_work.c:353 | a split at k slashes exists exactly when the text holds at least k |
| MacAddress.MakeWifiMacStr | main/net_tool.c:25-44 | the nibble loop leaves the Base16 text of the six bytes in the buffer, NUL-terminated |
| MacAddress.HexText | main/net_tool.c:25-44 | the text has two characters a byte, all of them 0-9 or A-F |
| MacAddress.HexTextDigits | main/net_tool.c:25-44 | byte i stands at 2i and 2i + 1, high nibble first, in the digits 0123456789ABCDEF |
| MacAddress.UnhexOfHexText | main/net_tool.c:25-44 | an independent Base16 decoder recovers any byte list from its text |
| MacAddress.HexTextOfUnhex | main/net_tool.c:25-44 | every text that decodes is the text of the bytes it decodes to |
| MacAddress.HexTextInjective | main/net_tool.c:25-44 | distinct byte lists have distinct texts |
| TopicTable.LookupIsFirstKeyword | main/mqtt_work.c:386-440 | for any packed table and non-empty '*'-free needle, first offset divided by the row width is the number of the first keyword containing the needle, and the search misses exactly when no keyword contains it |
| TopicTable.EmptyNeedle | main/mqtt_work.c:391-395 | an empty segment reads as the first keyword of its table |
| TopicCodes.NamespaceSearch | main/mqtt_work.c:32-34 | the over-long namespace literal, cut to the row width, still works as a padded keyword |
| TopicCodes.HeadCodesAreKeywordSearches | main/mqtt_work.c:386-416 | the five table lookups of topic_get_head are plain keyword searches over the declared keywords |
| TopicCodes.SubRouteCodesAreKeywordSearches | main/mqtt_work.c:418-440 | the four lookups of topic_get_route are plain keyword searches over the sub-routes of that route |
| TopicCodes.DeclaredRouteCodes | main/mqtt_work.h:115-120 | every route keyword gets its declared code 110, 130, 150, 170 or 190 |
| TopicCodes.DeclaredSubRouteCodes | main/mqtt_work.h:138-183 | every sub-route keyword gets its declared code, "light" before "lightStrength" included |
| TopicCodes.DeclaredHeadCodes | main/mqtt_work.h:79-103 | aiot, s, d and el1 get 11, 21, 22 and 31 |
| TopicCodes.HeadTablesInFull | main/mqtt_work.h:58-136 | the five head tables written out: every keyword in its place, and the codes 1.., 11, 21, 31 and 110, 130, ... of the rows |
| TopicCodes.SubRouteTablesInFull | main/mqtt_work.h:138-183 | the four sub-route tables written out, with codes from 131, 151, 171 and 191 |
| TopicParser.MqttTopicRes | main/mqtt_work.c:338-383 | the pointer-walking loop writes exactly the seven codes of the plain split and leaves the rest of the array alone; it rejects the empty topic only, and has no defined result exactly when separators are missing or a piece overruns tmp |
| TopicParser.FromFirstSlash | main/mqtt_work.c:343-348 | walking by offsets is the plain split, except that the first piece keeps a leading slash |
| TopicParser.SlotsDefined | main/mqtt_work.c:349-375 | codes exist exactly when six separators follow the optional leading one and every piece is at most 19 characters |
| TopicParser.SlotsOfSegments | main/mqtt_work.c:351-374 | slot n of a topic is the lookup of its segment n, slot 6 that of the remainder under the route in slot 5 |
| TopicParser.LeadingSlashIsIgnored | main/mqtt_work.c:345-348 | slots 1 to 6 are the same with and without the leading slash |
| TopicMaker.StrAddCopy | main/fun_tool.c:6-10 | the caller's buffer holds the concatenation as a C string |
| TopicMaker.MqttClient.TopicMaker | main/mqtt_work.c:96-99 | both heads grow by one copy of the MAC and stay base plus one copy for each connect |
| TopicMaker.MqttClient.PublishOn | main/mqtt_work.c:111 | one message is published, under the publish head and the given suffix |
| TopicMaker.MqttClient.ConnectAction | main/mqtt_work.c:117-132 | the six suffixes are subscribed, in order, under the head |
| TopicMaker.MqttClient.Connected | main/mqtt_work.c:241-243 | a connect grows both heads and subscribes to every suffix under the grown one |
| TopicRoundTrip.TopicParses | main/mqtt_work.c:338-440 | any sender, slash-free MAC text, route and sub-route parse to the fixed codes and the lookups of the two, exactly when the MAC text fits tmp |
| TopicRoundTrip.RoundTrip | main/mqtt_work.c:338-440 | for every six-byte MAC, either sender, every declared route and sub-route and any number of connects, the printed topic has codes if and only if there was at most one connect, and slots 1 to 6 are then the declared ones |
| TopicRoundTrip.TextRoundTrip | main/mqtt_work.h:79-183 | each of the nine declared topics, written as text for either sender and any MAC, parses to the codes written in the header |
| TopicRoundTrip.SubscribedTopicRoundTrip | main/mqtt_work.c:117-132 | every topic subscribed on the first connect parses to 11, 21, 31, 41 and the codes declared for its suffix |
| TopicRoundTrip.SubscribedTopicAfterConnects | main/mqtt_work.c:241-243 | after any number of connects a subscribed topic has codes, those declared for its suffix, if and only if there was at most one |
| TopicRoundTrip.PublishedTopicAfterConnects | main/mqtt_work.c:111-227 | the same for every published topic, /event/existChange included, with 22 in slot 2 |
| TopicRoundTrip.ConnectAndParse | main/mqtt_work.c:96-132 | printing the MAC, starting a client on it, connecting and parsing what was subscribed ends Parsed with the declared codes, for every MAC and suffix |
| TopicRoundTrip.HeadsAreDistinct | main/mqtt_work.c:96-99 | distinct MACs have distinct subscribe and publish heads |
| Decimal.AtoiOfItoa | main/mqtt_work.c:207-223 | what the device prints for a number reads back, by atoi, as that number |
| Decimal.ItoaDigits | main/mqtt_work.c:219-226 | the printed text is the decimal digits, most significant first, with the sign in front |
| Decimal.AtoiStops | main/mqtt_work.c:207 | a number is read up to the first other character, with a plus sign or without |
| Decimal.AtoiOfText | main/mqtt_work.c:207 | leading blanks are skipped; text that starts with no number reads as zero |
| LightCommands.LampControl.MqttDataAction | main/mqtt_work.c:134-232 | the dispatch sets exactly the field the codes and payload give, publishes exactly the reply suffix, and returns the code's status |
| LightCommands.StatusTable | main/mqtt_work.c:134-232 | the status by the numbers of the codes: success for 130 with 131 or 133, for 150 unless 152 comes with zero, and for 170 |
| LightCommands.LampControl.StoreSettings | main/mqtt_work.c:146-184 | each of the seven settings takes its number when present and numeric, and otherwise stays |
| LightCommands.LampControl.AnswerInfo | main/mqtt_work.c:216-229 | the fall-through replies are the status report from the item asked for to its end |
| LightCommands.LampControl.DataEvent | main/mqtt_work.c:262-273 | parse and dispatch together deliver the message to the lamp; an empty topic changes nothing |
| LightCommands.CommandFold | main/mqtt_work.c:134-215 | after any run of messages, switch, strength and each setting are the last value some message gave |
| LightCommands.StrengthStaysNonZero | main/mqtt_work.c:207-214 | once non-zero, the strength is non-zero after any run of messages |
| LightCommands.ReportSetsOtherLamp | main/mqtt_work.c:192-224 | one lamp's report, sent to another as commands, carries over its switch and its non-zero strength |
| LightCommands.DoNeverFallsThrough | main/mqtt_work.c:190-216 | no parsed topic on the do route reaches the info replies |
| WifiStore.NvsGetStr | main/net_tool.c:75-79 | sizes include the terminating NUL; a missing entry leaves size and buffer alone |
| WifiStore.WifiConfCheck | main/net_tool.c:51-123 | the status and the configuration loaded, for every store and nvs_open result |
| WifiStore.WifiConfWrite | main/net_tool.c:126-171 | the status and the new store, for both operations, unknown ones, and every nvs_open result, with lengths taken in eight bits |
| WifiStore.PersistenceRoundTrip | main/net_tool.c:113-161 | written credentials pass the check after a reboot if and only if 1 <= ssid <= 31 and 7 <= password <= 63 characters, and come back as written |
| WifiStore.WritesByLength | main/net_tool.c:153-165 | a write is taken exactly for 1 to 32 and 1 to 64 characters |
| WifiStation.StaDriver.HandleEvent | main/net_tool.c:173-202 | counter, event bits and connect calls after each event |
| WifiStation.StaDriver.WifiInitSta | main/net_tool.c:204-277 | the verdict is success iff an address was got, failure iff none was and counter plus disconnects exceed five; the counter is the capped number of disconnects since the last address |
| WebSetup.WebForm.HelloGet | main/web_server.c:19-45 | a parameter is taken over exactly when present and short enough; any query string ends the wait |
| WebSetup.WebForm.StartWebServer | main/web_server.c:102-136 | the wait ends exactly when some request had a query string, always with success, and copies out the last value of each parameter |
| WebSetup.WebForm.ApNetsetupStart | main/net_tool.c:294-344 | setup never reports anything but success |
| BootLoop.AppMain | main/main_app.c:42-96 | the loop terminates and does exactly what the loop-free description of a boot says |
| BootLoop.BootBounds | main/main_app.c:58-96 | the body runs at most twice, the station is tried at most once and only with stored, accepted credentials; the loop is left only by station success or restart |
| BootLoop.AttemptsByLength | main/net_tool.c:113-123 | a boot tries the station exactly when the store opens and holds an SSID of at most 31 and a password of 7 to 63 characters, and with those |
| BootLoop.FailureSpentTheBudget | main/main_app.c:89-95 | setup follows a station attempt if and only if it got no address and at least six disconnects |
| BootLoop.FailureEmptiesTheStore | main/main_app.c:61-65 | when a boot tries the station and then sets up, both entries are empty before the setup page opens, unless that nvs_open fails |
| BootLoop.NothingStoredMeansSetup | main/main_app.c:70-73 | absent and empty stores lead to setup without a station attempt |
| BootLoop.InvalidSubmissionChangesNothing | main/main_app.c:81 | an invalid submission leaves the store as setup found it |
| BootLoop.StoreInvariantHolds | main/main_app.c:58-83 | after any run of boots the store is absent, empty, or holds both strings within the form's limits |
| BootLoop.CredentialsSurvive | main/main_app.c:58-96 | in any run of boots that open the store and never spend the retry budget, every boot tries the stored credentials, none sets up again, and each goes online iff it gets an address |
| BootLoop.SubmissionReachesStation | main/main_app.c:58-96 | the next boot tries exactly the submitted credentials iff the SSID is not empty and the password has seven or more characters, and otherwise sets up again |
| BootLoop.SubmissionByLength | main/web_server.c:30-41 | a parameter of at most 31 or 63 characters is taken, a longer or missing one leaves the earlier value, and page loads change nothing |
| BootLoop.SubmissionReachesStore | main/main_app.c:81 | a restart leaves the submission stored if both fields are there and the store opens for it, and otherwise the store as the page found it |
| BootLoop.SubmittedIsTried | main/main_app.c:58-96 | an SSID of 1 to 31 and a password of 7 to 63 characters, given to the setup page and followed by page loads only, are what the next boot tries |
| BootLoop.SubmissionIsTaken | main/web_server.c:19-136 | a fitting submission is what gets submitted, whatever requests came before; requests served after it, until the server stops, override exactly the parameters they carry, so page loads override nothing |
| BootLoop.TriedCredentialsWereSubmitted | main/main_app.c:58-96 | in any run from an absent store, what the station is tried with was submitted in an earlier boot and stored ever since |
| PixelEncoder.EncoderRoundTrip | main/ws2182_dev.c:99-160 | a 24-byte buffer decodes to a colour if and only if it is that colour's encoding, so encoding is injective |
| PixelEncoder.StreamRoundTrip | main/ws2182_dev.c:189-206 | a stream of any length decodes to a pixel list if and only if it is that list's stream |
| PixelEncoder.BitsOfValue | main/ws2182_dev.c:111-124 | reading symbols most significant bit first puts each at its own weight |
| PixelEncoder.EncodedBits | main/ws2182_dev.c:99-160 | the 24 bytes written out: green, red, blue, most significant bit first, 0xF0 for a one and 0xC0 for a zero |
| PixelEncoder.BitAtIsShift | main/ws2182_dev.c:111-124 | bit k of a byte is the one under 0x80 shifted down k places |
| LedStrip.FillByte | main/ws2182_dev.c:109-124 | the loop that shifts the byte under a fixed mask writes the byte's eight symbols and nothing else |
| LedStrip.AlignedStep | main/ws2182_dev.c:113-121 | after k wraparound shifts the fixed mask reads bit k of the original byte |
| LedStrip.Ws2812bSend24bit | main/ws2182_dev.c:99-171 | green, red and blue fill all 24 places in that order |
| LedStrip.Strip.SetAllPixelColorNocache | main/ws2182_dev.c:195-207 | records the colour and sends it for every pixel |
| LedStrip.Strip.SetAllPixelColor | main/ws2182_dev.c:173-193 | the buffered refresh leaves the colour in all three buffers and sends the same stream |
| LegacyEncoder.FillByteByMask | main/ws2812.c_disable:100-115 | the loop that shifts the mask over a fixed byte writes the same symbols with the one-symbol renamed |
| LegacyEncoder.ReverseGroups | main/ws2812.c_disable:151-162 | the swap loops turn round every group of four in place |
| LegacyEncoder.ReversalUndoesItself | main/ws2812.c_disable:151-162 | turning the groups round twice gives the buffer back |
| LegacyEncoder.Ws2812bSend24bit | main/ws2812.c_disable:93-162 | the older buffer is the active one with the one-symbol renamed and every group of four reversed |
| LegacyEncoder.LegacyStreamDecodes | main/ws2812.c_disable:93-162 | undoing both recovers the colour |
| LegacyEncoder.LegacyBytes | main/ws2812.c_disable:93-162 | byte n of the older buffer is the mirrored byte of its group in the active one, with 0xFC for 0xF0 |
| ColourMath.HsvToRgb | main/ws2182_dev.c:215-245 | the sextant switch computes v less the chroma times a clamped trapezoid of the hue, for every hue in 0..359 and for grey at any hue; for hues from -59 to -1, which fall into the first case, it states the first sextant's formula carried on |
| ColourMath.SextantsMeet | main/ws2182_dev.c:233-240 | neighbouring sextant formulas agree at every multiple of 60 |
| ColourMath.ExtremesOfChannels | main/ws2182_dev.c:215-245 | the largest channel is v, the smallest v(1 - s/100), and all stay in 0..100 |
| ColourMath.InverseOfChannels | main/ws2182_dev.c:215-245 | a separately defined RGB to HSV recovers hue, saturation and value whenever s and v are positive |
| ColourMath.ChannelsInjective | main/ws2182_dev.c:215-245 | distinct coloured inputs give distinct colours |
| ColourMath.HuesOfPrimaries | main/ws2182_dev.c:233-240 | red, yellow, green, cyan, blue and magenta sit at 0, 60, 120, 180, 240 and 300 degrees |
| StatusTick.SetNightLight | main/ws2182_dev.c:247-256 | the strip shows the night levels, cut to bytes |
| StatusTick.StatusUpdateReport | main/event_pro.c:19-56 | the recorded colour and the refresh are the ones the lamp and the hour call for |
| StatusTick.LightnessInNumbers | main/event_pro.c:53-54 | the grey level is 255 times the strength divided by 100, cut towards zero, or 0 when off |
| StatusTick.NightLevelsInNumbers | main/ws2182_dev.c:247-256 | the three night levels as whole-number quotients of the strength |
| StatusTick.LightnessIsStrict | main/event_pro.c:53-55 | distinct strengths give distinct levels in order, within a byte up to 100, and zero when off |
| StatusTick.LightnessIsByte | main/event_pro.c:53-55 | the level is a byte if and only if the strength is in 0..100 |
| StatusTick.NightLightIsWarm | main/ws2182_dev.c:247-256 | red, green and blue fall in that order, each grows with the strength, and all are bytes |
| StatusTick.NightTickIsWarm | main/event_pro.c:36-48 | at night, for a strength in 0..100, the strip's bytes are the night levels themselves, in falling order |
| RadarDecoder.Radar.ManExistChangePro | main/mqtt_work.c:102-114 | exactly when the value differs from the old one, one message is published: the event topic under the publish head, and an object with the value and the constant time |
| RadarDecoder.Radar.Take | main/base_fun.c:44-93 | what each kind of report does to the three readings and what it publishes |
| RadarDecoder.Radar.RadarDataProcess | main/base_fun.c:30-97 | the pointer-advancing decoder applies exactly the report found in the buffer, fall-through included, and reads within its first ten bytes |
| RadarDecoder.Radar.UartData | main/base_fun.c:109-119 | received bytes are decoded from a zero-filled buffer |
| RadarDecoder.TenBytesDecide | main/base_fun.c:36-94 | buffers that agree on their first ten bytes report the same |
| RadarDecoder.OneStrayByte | main/base_fun.c:36-43 | a frame that starts 53 59 80 reports the same behind one stray byte, whatever follows |
| RadarDecoder.AnnouncementsAreChanges | main/base_fun.c:30-97 | over any run of buffers the announced values are exactly the presence history with repeats removed |
| RadarDecoder.ChangesAlternate | main/mqtt_work.c:105 | a change history never repeats itself and ends where the history ends |
| RadarDecoder.AnnouncementsFollowPresence | main/base_fun.c:30-97 | from power-up no two consecutive announcements are equal and the last one, or 0, is the current presence |
| SmartLight.PartsSeeTheirOwnEvents | main/mqtt_work.c:235-282 | however connects, radar buffers, messages and ticks interleave, the sensor depends on the radar buffers alone and the lamp on the messages alone |
| SmartLight.StripIgnoresTheRest | main/event_pro.c:19-56 | leaving out every radar buffer and every connect changes nothing the strip shows |
| SmartLight.InterleavingIndependence | main/base_fun.c:30-119 | two interleavings with the same messages and ticks show the same; with the same radar buffers, sense the same |
| SmartLight.Board.Handle | main/mqtt_work.c:235-282 | on the device's objects (client, radar, lamp control, strip) a connect, a radar buffer, a message or a tick is one step of the device model: heads, subscriptions and the one publish trace included |
| SmartLight.TickShowsTheCommands | main/event_pro.c:36-55 | after a tick the recorded colour is the one the messages so far call for, and every pixel just sent decodes to it |
| SmartLight.WireDecodesToShown | main/ws2182_dev.c:195-207 | everything a run sends decodes to exactly 32 pixels a tick, in the colour the messages up to that tick call for |
| SmartLight.PublishedPresence | main/mqtt_work.c:102-114 | in any run the presence values in the publish trace are just what the radar's buffers announce, status replies notwithstanding |
| SmartLight.PublishedPresenceAlternates | main/mqtt_work.c:105 | in the publish trace of any run no two presence messages in a row are equal, and the last one, or 0, is the presence held |
| SmartLight.HeadsOfRun | main/mqtt_work.c:96-99 | after any run both heads are their base and one MAC for each connect in it |
| SmartLight.RoomOfRun | main/mqtt_work.c:19-21 | the 128-byte topic buffers hold whatever a run makes the device write if and only if it has at most seven connects |
| SmartLight.PublishesParse | main/mqtt_work.c:102-227 | every message a run publishes, presence or reply, parses with 22 in slot 2 and the codes declared for its suffix if and only if at most one connect came before it |
| SmartLight.SubscribedOnFirstConnect | main/mqtt_work.c:117-132 | after exactly one connect, wherever it came in the run, the device is subscribed to just its six topics |
| SmartLight.ReportTopicsNameTheirItems | main/mqtt_work.c:216-227 | until a second connect the topics of a status report parse to the codes of the items they report, for every MAC |
| SmartLight.PresenceIsReported | main/mqtt_work.c:225-227 | after any run with one connect, asking for presence on the subscribed topic is answered once, with the value the radar's buffers left, which is the last one published, or 0 |
| SmartLight.CommandsSetTheLamp | main/mqtt_work.c:190-215 | the on command and the strength command, as topic text and payload, leave the lamp on at that strength |
| SmartLight.ServerLightsTheStrip | main/event_pro.c:52-55 | for every MAC and every history with one connect, switching on and setting a strength, on the topics subscribed to and with any buffers, ticks and connects in between, shows that grey level at the next daytime tick |
| DeviceLaws.DecodeTable | main/base_fun.c:30-119 | for every received buffer, by its bytes alone: the readings after it and the one presence message, sent exactly when presence changed; any other buffer changes nothing |
| DeviceLaws.RadarFrames | main/base_fun.c:36-93 | frames 53 59 80: 03 means someone is there, 01 gives the presence, 02 the motion and 0b the bearing, a zero in the last two meaning nobody; other commands do nothing |
| DeviceLaws.PresenceMessages | main/mqtt_work.c:102-114 | every presence message of a run goes out under the head at /event/existChange, carries exist and time 6666, and parses to 190, 191 if and only if at most one connect came before |
| DeviceLaws.SubscribedAsText | main/mqtt_work.c:117-132 | after the first connect the device is subscribed to exactly the six topics, written as text, and publishes under /dev/aiot/d/el1/ and its MAC |
| DeviceLaws.SubscribedCodes | main/mqtt_work.c:351-374 | the six topics, written as text, carry the codes 150/151, 150/152, 130/132 and 170/171 to 170/173 to the dispatch |
| DeviceLaws.MessageTable | main/mqtt_work.c:134-232 | everything any message does, by the numbers of its codes: settings, switch, strength, or answers; every other message does nothing |
| DeviceLaws.SettingsArrive | main/mqtt_work.c:145-186 | for every MAC and history with one connect, a message on /config/light sets each of the seven settings from the number under its own name, and changes nothing else |
| DeviceLaws.QuestionsAreAnswered | main/mqtt_work.c:216-229 | asking on /info/light, /info/lightStrength or /info/exist publishes the answers from the one asked for to the last, in order |
| DeviceLaws.TickByTheClock | main/event_pro.c:36-55 | a tick sends 32 pixels: the night levels from nlmStart to nlmEnd, both included, in night mode; otherwise the grey level, 0 when off |
| DeviceLaws.TickBytes | main/ws2182_dev.c:99-207 | a tick adds 768 bytes, each 0xF0 or 0xC0 by the bit of the recorded colour it stands for |
| DeviceLaws.DarkUntilAsked | main/event_pro.c:52-55 | before the first message the lamp is off with all settings zero, and every tick sends 32 dark pixels |

## Left out

- Foreign calls: SPI, UART, GPIO, SNTP, the WiFi driver, HTTP server internals and the MQTT client; only the events and values they deliver are modelled, and publishes and refreshes are appended to traces, publishes made before the client is up or while it is offline included.
- cJSON: a payload comes with its parsed object as a map from name to typed value, and the presence message is its list of members; name matching and printing inside cJSON are not modelled.
- Overruns of the topic and data buffers: methods that write a topic require room for it, which a run has for seven connects (`SmartLight.RoomOfRun`), and a delivered message is taken to fit.
- Floating-point rounding: exact reals are used throughout the colour arithmetic.
- `int` overflow in `atoi`, and numbers too long for the five-byte reply buffer.
- Lookups that miss their table, and messages whose route codes rest on one: C gives them no meaning, so runs of messages are runs of messages whose lookups hit or whose topic is empty.
- Slot 0 of a topic with a leading slash: no claim is made about its content.
- Stored strings longer than the fields they are read into: the model's configuration holds strings of any length.
- Partial flash writes and failures of single store operations; only `nvs_open` fails. The read-failure status is therefore never returned.
- Preemption inside a handler: radar buffers, messages, connects and ticks are each one step.
- Heartbeat, environment-light and light-mode settings are stored but drive nothing; the need-change flags are set and never read, and are not modelled.
- Logging, the animations of the older driver and the disabled UART files.
