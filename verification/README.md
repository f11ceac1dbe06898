# Verification of the platform's protocols, codecs and tools

This project models the parts of the platform whose correctness is hardest to see from one
function body, and proves what they promise for every input, every run and every interleaving.

- **Codecs and arithmetic.** The camera's clock against the proleptic Gregorian calendar
  (`calendar.dfy`); the MQTT writer and reader as inverses, and the publishing session
  (`mqtt.dfy`); the reader of an uploaded Office file's ZIP directory against the layout it reads
  (`archive.dfy`); the percent-encoder and decoder of the App SDK (`percent.dfy`); the incremental
  Server-Sent-Events reader of the assistant's widget (`eventstream.dfy`); the rewriting of the User
  Guide's Portal paths (`guide.dfy`).
- **Protocols and state machines.** The turns of the embedding model (`turns.dfy`); the delegated
  grants and the realm sessions they share (`grants.dfy`); the data credentials (`credentials.dfy`);
  the per-minute limit (`limits.dfy`); the gateway's budget of write bodies (`writebudget.dfy`); the
  gateway's activity tally (`tally.dfy`).
- **A fast form that agrees with a simple one.** The ticket cache and Argon2 (`tickets.dfy`); the
  incremental catalogue sync and a rebuild from scratch (`ckan.dfy`); the search over several
  projects and the best of everything they hold (`search.dfy`); the two worklists of the tools and
  paths in their graphs (`worklists.dfy`); the crate-layer check and an acyclic graph (`layers.dfy`).

What the source changes step by step is a class or a loop here, proved against a function; the
properties are then lemmas about that function. A protocol is a set of atomic steps, and a property
of it holds over every sequence of them.

## Where the code does less than its documentation says

Each of these is a lemma here with the exact condition, for all inputs, and most have a second one
that shows an input or a run it happens on.

- A rewritten guide page is rewritten again by a second pass exactly when the Portal's address ends
  in a character a path may follow (`Guide.IdempotentExactly`, `Guide.GrowsAgain`).
- A stream whose chunks are cut between a CR and its LF is framed differently from the whole stream,
  and no other stream is (`EventStream.ChunksFrameAlike`). Its events, however their data parses, are
  the whole stream's exactly when every such cut is on an empty line, at the end of a block's last
  line, or between two parts of a block that make the same events (`EventStream.EventsExactly`);
  `EventStream.EventIsLost` is a stream of one event that is not handled.
- The result of the search over several projects is always the best by score. In the merge's own
  order (score, then chunk) it is the best exactly when no project, which puts news last among ties,
  cuts a passage that fewer than the limit of all passages stand before (`Search.BestExactly`,
  `Search.TieHappens`).
- The per-minute limit `L` lets through at most `2L - 1` requests in sixty seconds, and that many
  are reached (`Limits.AtMostInAMinute`, `Limits.TheBoundIsMet`).
- A session leaks exactly when a refused refresh removes the last grant of it while the session is
  alive (`Grants.LeaksExactly`): because the realm refused and left it alive (`Grants.RefusalLeaks`),
  or, with a realm that refuses only what is over, because the run was bound again between the
  refusal and the removal (`Grants.OnlyAnotherIsAlive`, `Grants.LeakHappens`).
- A grant bound between a retired grant's look and its revocation is ended with it, and no other held
  grant is (`Grants.HitsOnlyWhatCameBetween`, `Grants.HitHappens`).
- An archive whose comment holds a later end record is judged by that record
  (`Archive.ZipReadsBack`, `Archive.CommentHidesTheEntries`).
- The crate-layer check looks for a direct dependency back of a dev-dependency only, which lets
  through one shape: the base crate tested with a tool (`Layers.DependsBackExactly`,
  `Layers.DependsBackHappens`).
- An MQTT string's length is cut to sixteen bits, and a packet of 256 MiB is written but never read
  (`Mqtt.StringReadsBack`, `Mqtt.PacketReadsBack`). A timestamp from the year 10000 on is longer
  than RFC 3339 allows (`Calendar.TimestampFits`). An Entity id of one or two dots makes a path the
  SDK then refuses (`Percent.EntityPathChecked`).

## Model

| member | source | states |
|---|---|---|
| Calendar.CivilIsTheCalendar | crates/camera-sim/src/main.rs:299-318 | The date of day `n` is the one reached from 1 January 1970 by going to the next day `n` times under the Gregorian leap rule and month lengths. |
| Calendar.CivilStep | crates/camera-sim/src/main.rs:299-318 | Every day, also before 1970, has a valid date, and the next day's date is the calendar's next day. |
| Calendar.DaysOfCivil | crates/camera-sim/src/main.rs:299-318 | Days-from-civil of the date is the day again. |
| Calendar.CivilOfDays | crates/camera-sim/src/main.rs:299-318 | Every valid date is the date of its own day, so the two maps are inverse. |
| Calendar.CivilKeepsOrder | crates/camera-sim/src/main.rs:299-318 | A later day has a later date. |
| Calendar.TimestampReadsBack | crates/camera-sim/src/main.rs:299-318 | Read as year, month, day and clock, a second's timestamp gives the second back: no two seconds share one. |
| Calendar.TimestampForm | crates/camera-sim/src/main.rs:313-317 | The signs between the fields stand where RFC 3339 puts them. |
| Calendar.TimestampFits | crates/camera-sim/src/main.rs:299-318 | The timestamp has RFC 3339's twenty characters exactly before the year 10000. |
| Mqtt.WritePacket | crates/camera-sim/src/mqtt.rs:93-106 | The loop writes the header, the length in base 128 with continuation bits, and the body. |
| Mqtt.BitsOfALength | crates/camera-sim/src/mqtt.rs:43-46 | Oring a seven-bit digit in above the ones read is adding it, so the arithmetic form is the bit form. |
| Mqtt.BitsOfAByte | crates/camera-sim/src/mqtt.rs:45-51 | The masks and shifts of a byte are the arithmetic used for them. |
| Mqtt.Stream.Read | crates/camera-sim/src/mqtt.rs:37-59 | Reads one packet off the stream and nothing past it; ends as closed, truncated or too long as the bytes say. |
| Mqtt.LengthReadsBack | crates/camera-sim/src/mqtt.rs:43-58 | A written length reads back from a field of `room` bytes exactly when it is below 128 to that power, whatever follows. |
| Mqtt.PacketReadsBack | crates/camera-sim/src/mqtt.rs:37-106 | A packet reads back as its type and body with what follows untouched exactly below 256 MiB; above, it is refused as too long. |
| Mqtt.PacketCut | crates/camera-sim/src/mqtt.rs:37-59 | A packet cut anywhere inside is refused as truncated. |
| Mqtt.TooLongExactly | crates/camera-sim/src/mqtt.rs:42-58 | On all bytes, refused as too long exactly when the first four length bytes all ask for another. |
| Mqtt.LengthIsMinimal | crates/camera-sim/src/mqtt.rs:93-106 | Among all fields the reader takes for a length, the writer's is the shortest and the only one of its size. |
| Mqtt.StreamReadsBack | crates/camera-sim/src/mqtt.rs:37-106 | Any sequence of packets reads back as that sequence, and then as closed. |
| Mqtt.StringReadsBack | crates/camera-sim/src/mqtt.rs:87-91 | A string reads back exactly when it is shorter than 64 KiB; otherwise what is read has the length cut to sixteen bits. |
| Mqtt.ConnectReadsBack | crates/camera-sim/src/mqtt.rs:8-18 | CONNECT reads back as client, user, password and keep-alive exactly when each string is shorter than 64 KiB. |
| Mqtt.ConnectOnTheWire | crates/camera-sim/src/mqtt.rs:8-18 | The first octets of a CONNECT are the header, the protocol's name and level, the login flags and the keep-alive, high byte first. |
| Mqtt.PublishOnTheWire | crates/camera-sim/src/mqtt.rs:21-28 | A PUBLISH is the header, the topic behind its length, the packet id and the payload, high bytes first. |
| Mqtt.ConnectArrives | crates/camera-sim/src/mqtt.rs:8-59 | Off a stream, a CONNECT arrives whole with what follows it untouched exactly when each string is shorter than 64 KiB. |
| Mqtt.PublishArrives | crates/camera-sim/src/mqtt.rs:21-59 | Off a stream, a PUBLISH arrives whole exactly when the topic is shorter than 64 KiB and the body than 256 MiB. |
| Mqtt.PublishReadsBack | crates/camera-sim/src/mqtt.rs:21-28 | PUBLISH reads back as topic, packet id and payload exactly when the topic is shorter than 64 KiB. |
| Mqtt.PacketIdsTellNeighboursApart | crates/camera-sim/src/main.rs:446-448 | Packet ids are 1 to 65535 and two frames in a row never share one. |
| Mqtt.PacketIdsCycle | crates/camera-sim/src/main.rs:446-448 | A packet id is the frame's own number up to 65535, and starts again behind it. |
| Mqtt.Await | crates/camera-sim/src/main.rs:455-463 | Skips other packets up to the next PUBACK and says whether it carries the id in flight. |
| Mqtt.Session | crates/camera-sim/src/main.rs:438-469 | The count is the longest run of frames sent and acknowledged by their own id; at most one more frame went out; a broker whose PUBACKs, with anything between them, are those of the frames in order is counted in full. |
| Mqtt.AcknowledgesItsId | crates/camera-sim/src/mqtt.rs:83-85 | A PUBACK acknowledges the id its body starts with, high byte first, and none below two bytes. |
| Mqtt.AllTaken | crates/camera-sim/src/main.rs:455-467 | A broker that answers every frame took every frame. |
| Archive.FindEnd | crates/assistant/src/upload.rs:84-89 | Finds the last end record that a comment of at most 64 KiB allows, and none exactly when there is none. |
| Archive.ReadHeader | crates/assistant/src/upload.rs:100-112 | Reads one central directory header and where the next one starts, or nothing when any field is out of bounds. |
| Archive.JudgeHeaders | crates/assistant/src/upload.rs:98-129 | The loop answers what judging the chain of headers answers, after at most the declared number of headers. |
| Archive.Directory | crates/assistant/src/upload.rs:81-130 | On all bytes the verdict is that of the last end record, with at most 5000 headers visited. |
| Archive.FirstFaultDecides | crates/assistant/src/upload.rs:113-122 | The first encrypted or overflowing entry alone decides the refusal and its reason. |
| Archive.NoFaultDecides | crates/assistant/src/upload.rs:98-130 | With no such entry the sizes fit the limit, and the verdict is the last kind named, or broken when the chain was cut. |
| Archive.AcceptedExactly | crates/assistant/src/upload.rs:81-130 | Accepted exactly when every header is readable, no entry is encrypted, the declared sizes fit together and a kind is named. |
| Archive.LastNameDecides | crates/assistant/src/upload.rs:123-127 | The last entry that names a document kind decides it, whatever came before. |
| Archive.ZipReadsBack | crates/assistant/src/upload.rs:81-130 | With any comment, the search finds a laid-out archive's own end record exactly when no later signature can be taken for one, and then the archive is judged by exactly its own entries: count, start, flags, sizes and names read back. |
| Archive.ZipAcceptedExactly | crates/assistant/src/upload.rs:339-368 | Such an archive is taken exactly when its own entries satisfy the rules. |
| Archive.CommentHidesTheEntries | crates/assistant/src/upload.rs:83-89 | With the end record of an empty archive as its comment, every archive is refused as neither kind. |
| Archive.InflatedWithin | crates/assistant/src/upload.rs:136-156 | The pass reports the fault of the first entry that breaks or gets past the limit, and inflates at most one byte past the limit. |
| Archive.InflatesExactly | crates/assistant/src/upload.rs:136-156 | It lets an archive through exactly when no entry breaks and all of it fits the limit. |
| Archive.OneFault | crates/assistant/src/upload.rs:136-156 | There is one fault the pass can report. |
| Archive.OneEnd | crates/assistant/src/upload.rs:84-89 | There is at most one record the search can find. |
| Archive.Office | crates/assistant/src/upload.rs:81-133 | The directory's refusal comes first, then the pass's, then the directory's kind. |
| Archive.TakenExactly | crates/assistant/src/upload.rs:81-156 | A file is taken exactly when its directory is and its real contents fit. |
| Archive.KindExactly | crates/assistant/src/upload.rs:123-127 | The kind is that of the last entry named `word/document.xml` or `xl/workbook.xml`, and none exactly without one. |
| Archive.OfficeAnswersTheKind | crates/assistant/src/upload.rs:81-156 | A laid-out archive is answered as DOCX exactly when it holds at most 5000 entries, none encrypted, declares and unpacks to at most 200 MiB, and the last main part is `word/document.xml`; as XLSX likewise with `xl/workbook.xml`. |
| Guide.Rewrite | crates/assistant/src/guide.rs:41-68 | The loop over the shrinking rest is the recursive rewriting. |
| Guide.FindFinds | crates/assistant/src/guide.rs:45-45 | The place found is the first occurrence of the prefix, and none is found exactly when there is none. |
| Guide.Settles | crates/assistant/src/guide.rs:39-68 | A rewritten text is left as it is by another pass, also right behind a project name just written. |
| Guide.IdempotentExactly | crates/assistant/src/guide.rs:39-68 | For a Portal address into which the prefix does not run and a project name, a second pass changes nothing on every text exactly when no path may stand right behind the address. |
| Guide.GrowsAgain | crates/assistant/src/guide.rs:46-63 | Where a path may stand right behind the address, the text of one path grows at a second pass. |
| Guide.RewriteIsAnEdit | crates/assistant/src/guide.rs:39-68 | The output is the text with every character copied in order but the rewritten paths, each replaced where it stands. |
| Guide.RewritingEdits | crates/assistant/src/guide.rs:43-67 | The same from any place the reading has got to. |
| Guide.StandingPathIsRewritten | crates/assistant/src/guide.rs:46-63 | Every path that stands on its own is rewritten. |
| Guide.RewrittenPathIsAPath | crates/assistant/src/guide.rs:46-63 | Every rewritten path is a slug behind the prefix that stands on its own or right behind an earlier match. |
| Guide.OnePath | crates/assistant/src/guide.rs:35-68 | In a text with one path, the path is put on the Portal and project exactly when what stands before and behind it lets it stand alone, character by character; nothing else changes. |
| EventStream.Events | crates/assistant/widget/render.js:303-324 | The loop gives the events of the blocks of the normalised text and its unfinished rest. |
| EventStream.BlockEvent | crates/assistant/widget/render.js:310-320 | A block gives one event, or none without a name or with data that does not parse. |
| EventStream.ReadLines | crates/assistant/widget/render.js:310-315 | The name is the last event line's, the data every data line's in order. |
| EventStream.ReadLoop | crates/assistant/widget/widget.js:1337-1345 | The events handled and the buffer left are those of reading the chunks in turn. |
| EventStream.FindBlankFinds | crates/assistant/widget/render.js:307-307 | The cut is at the first blank line. |
| EventStream.FrameGoesOn | crates/assistant/widget/render.js:303-324 | The blocks of `a + b` are those of `a` followed by those of the rest of `a` and `b`, with the same rest. |
| EventStream.ReadIsOneFraming | crates/assistant/widget/widget.js:1337-1345 | The read loop over any chunks yields the events of one framing of the chunks normalised one by one. |
| EventStream.LfApart | crates/assistant/widget/render.js:305-305 | Two texts normalised apart are the two normalised together, but for a CR LF between them, which gives one LF more. |
| EventStream.FramingKeepsAll | crates/assistant/widget/render.js:306-309 | Blocks and rest hold every character: different texts are framed differently. |
| EventStream.ChunksFrameAlike | crates/assistant/widget/render.js:305-309 | The chunks, normalised one by one, have the blocks and the rest of the whole stream exactly when no cut falls between a CR and its LF. |
| EventStream.LfMore | crates/assistant/widget/render.js:305-320 | An LF more behind a line changes no event when it is harmless there, and otherwise makes more events or as many with less data. |
| EventStream.TwoParts | crates/assistant/widget/render.js:310-320 | A block cut in two makes the events of the block exactly when its parts are alike in names and data. |
| EventStream.CutsExactly | crates/assistant/widget/render.js:303-324 | Any number of cuts inside a CR LF leave the events as they are exactly when each of them is harmless. |
| EventStream.EventsExactly | crates/assistant/widget/widget.js:1337-1345 | Over any chunks the loop handles the whole stream's events, however their data parses, exactly when every cut inside a CR LF is harmless. |
| EventStream.EventIsLost | crates/assistant/widget/widget.js:1337-1345 | One event, its two lines in two chunks with the cut inside the CR LF between them, is not handled. |
| EventStream.UncutIsHarmless | crates/assistant/widget/render.js:305-305 | Without a cut inside a CR LF there is none to be harmless. |
| EventStream.OneEventSequence | crates/assistant/widget/widget.js:1337-1345 | With harmless cuts only, the loop yields the whole stream's events for every parser and type of data, and with no cut inside a CR LF its rest too, whatever the chunking. |
| EventStream.NoCrNoCut | crates/assistant/widget/render.js:305-305 | A text without CR has no such cut. |
| EventStream.EventReadsBack | crates/assistant/widget/render.js:303-324 | An event of any name without white space around it and any text, written line by line, is read back as it was, with what follows untouched. |
| EventStream.LineEnds | crates/assistant/widget/render.js:305-305 | CR LF, LF and a CR alone are each one LF, in any place. |
| EventStream.TrimIs | crates/assistant/widget/render.js:314-314 | Trimming a name takes white space off both ends and nothing else. |
| Percent.Encode | crates/app-sdk/src/gateway.rs:74-84 | The loop writes the encoding of every octet in order. |
| Percent.Decode | crates/app-sdk/src/http.rs:244-267 | The index loop is the recursive decoding, a leading plus in an escape read as a sign. |
| Percent.EncodedReadsBack | crates/app-sdk/src/gateway.rs:74-84 | Every value decodes back from its encoding, in front of whatever follows. |
| Percent.DecodeUndoesEncode | crates/app-sdk/src/http.rs:244-267 | Decoding undoes encoding on every value. |
| Percent.EncodedIsPlain | crates/app-sdk/src/gateway.rs:73-84 | An encoded value holds unreserved characters and percent signs only, and is empty only for the empty value. |
| Percent.OctetInForm | crates/app-sdk/src/gateway.rs:73-84 | Letters, digits and `-._~` stay; every other octet is a percent sign and the two upper-case hexadecimal digits of its value. |
| Percent.DigitsExactly | crates/app-sdk/src/http.rs:251-254 | The hexadecimal digits of either case are read at their value, and nothing else is a digit. |
| Percent.EscapeReads | crates/app-sdk/src/http.rs:250-258 | An escape of two hexadecimal digits of one case is read as its octet, in front of anything. |
| Percent.BrokenEscapeStays | crates/app-sdk/src/http.rs:249-262 | A percent sign stays exactly when no hexadecimal digit, or a plus sign, and another digit follow it; a plus sign is a space. |
| Percent.PartsReadApart | crates/app-sdk/src/http.rs:270-279 | Any query is read part by part, an empty part being none. |
| Percent.PartReads | crates/app-sdk/src/http.rs:274-277 | A part without an equals sign is a name without a value, one with it a name and the rest. |
| Percent.CheckedExactly | crates/app-sdk/src/gateway.rs:56-71 | A path passes exactly when it starts with a slash, holds no backslash and no `#`, and no segment before its query is dots, encoded dots in any case, or empty between two slashes. |
| Percent.EntityPathExactly | crates/app-sdk/src/gateway.rs:94-99 | There is a path exactly for an id that is not empty and holds no control character. |
| Percent.QueryReadsBack | crates/app-sdk/src/http.rs:270-279 | The pairs read from a query built of encoded pairs are those pairs, in order. |
| Percent.FeaturesPathCarriesItsQuery | crates/app-sdk/src/gateway.rs:121-167 | There is a path exactly for a type name; it passes the check, and what is read from its query are the pairs given, with `filter-lang` and `cql2-text` behind them exactly when one is named `filter` and none `filter-lang`. |
| Percent.BuildFeaturesPath | crates/app-sdk/src/gateway.rs:121-138 | The loop over the pairs, the default language and the joining build that path. |
| Percent.PathsTellApart | crates/app-sdk/src/gateway.rs:121-138 | A features path tells what it was made from: no two collections, and no two lists of pairs sent, share one. |
| Percent.EncodedDots | crates/app-sdk/src/gateway.rs:94-99 | An encoded id is a dot segment exactly when the id is. |
| Percent.EntityPathChecked | crates/app-sdk/src/gateway.rs:56-99 | The path of an Entity passes the check exactly when the id is neither one dot nor two. |
| Turns.Turns.FetchAdd | crates/assistant/src/embed.rs:107-108 | A question counts itself: one step of the protocol, invariant kept. |
| Turns.Turns.AcquireOwned | crates/assistant/src/embed.rs:99-104 | A task takes a free permit or queues at the end. |
| Turns.Turns.Drop | crates/assistant/src/embed.rs:119-121 | A dropped permit goes to the front of the queue, or is free. |
| Turns.Turns.QuestionRuns | crates/assistant/src/embed.rs:107-111 | A question that has the permit is no longer counted, and runs. |
| Turns.Turns.PassageChecks | crates/assistant/src/embed.rs:114-124 | A passage with the permit runs exactly when the count is zero, and hands the permit back otherwise. |
| Turns.Turns.Cancel | crates/assistant/src/embed.rs:82-89 | A task given up leaves the queue, and a permit it was granted goes on. |
| Turns.Turns.FetchSub | crates/assistant/src/embed.rs:85-89 | The guard of a question given up takes it off the count. |
| Turns.Turns.Finish | crates/assistant/src/embed.rs:249-259 | A task that ran gives the permit to the front of the queue. |
| Turns.InvKept | crates/assistant/src/embed.rs:82-126 | Every step keeps: the count is the number of pending questions, one holder, the queue its waiting tasks without repeats, a free permit only with nobody queued. |
| Turns.EveryRunKeeps | crates/assistant/src/embed.rs:82-126 | So does every interleaving of any length, and at most one task runs after it. |
| Turns.StartIsValid | crates/assistant/src/embed.rs:92-97 | It holds at the start. |
| Turns.OneAtATime | crates/assistant/src/embed.rs:71-79 | At most one task has the model. |
| Turns.QuestionsGoFirst | crates/assistant/src/embed.rs:71-124 | While a question is counted no passage gets the model, whatever the interleaving. |
| Turns.PassageRunsWhenNoneWaits | crates/assistant/src/embed.rs:114-119 | The passage that looks runs exactly when no question is pending: one given up no longer blocks. |
| Turns.WaitStep | crates/assistant/src/embed.rs:106-124 | Every move of the permit brings a queued question nearer, and nothing newer gets in front. |
| Turns.AQuestionWaitsItsTurn | crates/assistant/src/embed.rs:106-124 | The permit moves at most twice for each task ahead of a question, only those and the present holder get it, and none of them is a passage that then runs. |
| Turns.SomebodyMoves | crates/assistant/src/embed.rs:99-124 | While a task is queued, somebody has the permit and a step to take. |
| Grants.Grants.ServesAnother | crates/agent-proxy/src/delegation.rs:307-313 | The look finds a held grant of the retired one's session exactly when there is one. |
| Grants.Grants.Retire | crates/agent-proxy/src/delegation.rs:306-320 | A retired grant is revoked exactly when its session is not shared. |
| Grants.Grants.Bind | crates/agent-proxy/src/delegation.rs:231-241 | A hand-over holds the new grant and retires the replaced one: the whole state is that of its steps. |
| Grants.Grants.End | crates/agent-proxy/src/delegation.rs:297-302 | The end of a run removes its grant and retires it. |
| Grants.InvKept | crates/agent-proxy/src/delegation.rs:231-320 | Every step keeps every grant in one place, and every held grant of a session about to be revoked younger than the look. |
| Grants.EveryRunKeeps | crates/agent-proxy/src/delegation.rs:231-320 | So does every interleaving. |
| Grants.HitsOnlyWhatCameBetween | crates/agent-proxy/src/delegation.rs:304-320 | A revocation ends a held grant exactly when a hand-over of the session came between look and revocation. |
| Grants.NoHandOverNoHit | crates/agent-proxy/src/delegation.rs:304-320 | A session nobody holds stays unheld in every run without a hand-over of it, so a revocation that follows ends no held grant. |
| Grants.LeaksExactly | crates/agent-proxy/src/delegation.rs:274-279 | A session leaks in a step exactly when a refused refresh removes the last grant of it, none is on its way to the realm, and the session is alive. |
| Grants.StillSomewhere | crates/agent-proxy/src/delegation.rs:231-320 | A session that is held or on its way to the realm stays so or is ended, but for a removal that leaves it alive. |
| Grants.NothingLeaks | crates/agent-proxy/src/delegation.rs:295-320 | In every run without a removal that leaves its session alive no session leaks. |
| Grants.OnlyAnotherIsAlive | crates/agent-proxy/src/delegation.rs:244-279 | With a realm that refuses only when the session is over and names none again that is, only a removal that hits another grant than the refused one leaves a session alive. |
| Grants.NothingLeaksFromTheStart | crates/agent-proxy/src/delegation.rs:295-320 | From the start, with everything retired settled, every session ever bound is held or ended: when no removal left it alive, or with such a realm when none hit another grant. |
| Grants.ReplacedInItsSessionIsDropped | crates/agent-proxy/src/delegation.rs:181-184 | A grant replaced within its session is dropped, not revoked. |
| Grants.LeakHappens | crates/agent-proxy/src/delegation.rs:274-279 | A leak with such a realm, as a run of six steps. |
| Grants.RefusalLeaks | crates/agent-proxy/src/delegation.rs:274-279 | A leak by a refusal that leaves the session alive, as a run of three steps. |
| Grants.HitHappens | crates/agent-proxy/src/delegation.rs:306-320 | A hand-over between a look and the revocation is ended with it and still held, as a run of five steps. |
| Credentials.StoreIsTheLog | crates/agent-proxy/src/data_credential.rs:45-92 | After every run of mints and revocations, the readings in order, the entries of a run are the newest eight of its log not expired at the last mint. |
| Credentials.VerifyIsGood | crates/agent-proxy/src/data_credential.rs:71-83 | With the clock readings in order, a credential verifies exactly when it is among the newest eight minted since the last revocation and its five minutes are not over. |
| Credentials.LastEightForFiveMinutes | crates/agent-proxy/src/data_credential.rs:24-83 | Of any number of credentials minted for a run at one moment the last eight verify, for three hundred seconds, and no other. |
| Credentials.HeldIsMinted | crates/agent-proxy/src/data_credential.rs:45-92 | Whatever the clock did, a run holds at most eight credentials, all minted for it since its last revocation. |
| Credentials.OnlyMintedSecretsVerify | crates/agent-proxy/src/data_credential.rs:71-83 | Whatever the clock did, a secret that verifies was itself minted for the run less than five minutes ago, but for a digest shared with another. |
| Credentials.DataCredentials.Mint | crates/agent-proxy/src/data_credential.rs:45-68 | Pruning, making room and pushing keep the map the replay of the log. |
| Credentials.DataCredentials.VerifyDigest | crates/agent-proxy/src/data_credential.rs:71-83 | The scan answers what the replayed log holds, and with the readings in order what the log says. |
| Credentials.DataCredentials.Revoke | crates/agent-proxy/src/data_credential.rs:86-92 | After a revocation no credential of the run is good. |
| Credentials.TokenReadsBack | crates/agent-proxy/src/data_credential.rs:115-122 | A minted token is `jcd_`, the run, a dot and the secret; it names the two exactly when neither is empty and the run has no dot. |
| Search.SearchProjects | crates/assistant/src/lib.rs:713-731 | The answers put together, sorted and cut are the merge. |
| Search.OrderOfAnswersDoesNotMatter | crates/assistant/src/lib.rs:723-731 | With unique chunks the result is the same for every order the searches finish in. |
| Search.BestByScore | crates/assistant/src/lib.rs:710-731 | No passage of any project that is left out scores more than one in the result, which is then full. |
| Search.ResultIsOfTheProjects | crates/assistant/src/lib.rs:713-731 | The result is sorted, without repeats, at most the limit, and of the projects' own passages. |
| Search.BestExactly | crates/assistant/src/lib.rs:728-729 | It is the best in the merge's own order exactly when no passage of a project has as many as the limit before it in its own project's order, and fewer than the limit of all projects' passages before it in the merge's. |
| Search.CutExactly | crates/assistant/src/lib.rs:305-306 | A project cuts a passage exactly when as many as the limit stand before it there. |
| Search.NoNewsNoMiss | crates/assistant/src/lib.rs:710-731 | Where no two passages of a project differ in being news, the result is the best in the merge's own order. |
| Search.TieHappens | crates/assistant/src/lib.rs:305-306 | Such a tie, with one project and two passages. |
| Limits.LimitManager.CheckRpm | crates/agent-proxy/src/limits.rs:77-99 | One request is counted in its run's window, opened anew when a minute is over; only that run's usage changes. |
| Limits.OtherRunsDoNotMatter | crates/agent-proxy/src/limits.rs:77-99 | A run is let through as if it were alone. |
| Limits.BoundKept | crates/agent-proxy/src/limits.rs:77-99 | Every request keeps the bound on what the current and the last window used of any sixty seconds. |
| Limits.AtMostInAMinute | crates/agent-proxy/src/limits.rs:77-99 | The open window's count is the number of requests let through in it, at most the limit; any sixty seconds let at most twice the limit less one through. |
| Limits.CountIsAdmitted | crates/agent-proxy/src/limits.rs:84-98 | The same, with every request let through lying before the end of the open window. |
| Limits.EveryWindow | crates/agent-proxy/src/limits.rs:84-98 | Every window a run ever has lets at most the limit through, whatever requests follow, and the next one starts a minute after it or later. |
| Limits.TheBoundIsMet | crates/agent-proxy/src/limits.rs:84-93 | For every limit a run of requests reaches that bound. |
| Ckan.Site.TakeDataset | crates/assistant/src/ckan.rs:445-461 | A dataset is written and handed over exactly when it is not known unchanged. |
| Ckan.Site.TakePage | crates/assistant/src/ckan.rs:431-462 | One answer's datasets are taken in order, without private, ill-named and repeated ones, up to the cap. |
| Ckan.Site.ReadListing | crates/assistant/src/ckan.rs:424-466 | The listing is read page by page to its end or the cap, or fails part way; the index holds what was known and what was read. |
| Ckan.Site.StoreConnect | crates/assistant/src/ckan.rs:367-390 | The how-to is written when its hash changed. |
| Ckan.Site.Sweep | crates/assistant/src/ckan.rs:473-481 | Exactly the pages not listed are removed, and counted. |
| Ckan.Site.Finish | crates/assistant/src/ckan.rs:467-487 | The how-to and the sweep turn the written pages into the synced index. |
| Ckan.Site.Sync | crates/assistant/src/ckan.rs:394-488 | A whole sync leaves the synced index, hands over exactly the pages not unchanged, stores a how-to exactly when some listed dataset has one, and reports what it did; a failed one leaves the pages read so far and all known ones. |
| Ckan.Site.FindHowTo | crates/assistant/src/ckan.rs:445-447 | The loop takes the first how-to and asks no further, and takes none exactly when no dataset has one. |
| Ckan.HowToIsTheFirst | crates/assistant/src/ckan.rs:445-447 | The how-to is that of the first listed dataset that has one, and none exactly when none has. |
| Ckan.HowToIsKept | crates/assistant/src/ckan.rs:469-471 | After a whole sync the catalogue's own address is stored exactly when some listed dataset has a how-to, with the hash of the first one's. |
| Ckan.SyncedIsRebuilt | crates/assistant/src/ckan.rs:357-391 | The synced index is the one rebuilt from scratch exactly when no dated how-to page was kept. |
| Ckan.HowToStaysUndated | crates/assistant/src/ckan.rs:367-390 | No sync, whole or part way, leaves a dated page at the how-to's address where there was none. |
| Ckan.EveryWholeSyncRebuilds | crates/assistant/src/ckan.rs:394-488 | After any sequence of syncs from an empty index, whole ones and failed ones, a whole one leaves the index rebuilt from its own listing. |
| Ckan.PartialRemovesNothing | crates/assistant/src/ckan.rs:428-429 | A sync that failed part way removes nothing and writes only what a whole one would. |
| Ckan.SyncedKeys | crates/assistant/src/ckan.rs:469-481 | The stored addresses are exactly those of the listed datasets and the one how-to. |
| Ckan.PageOfEach | crates/assistant/src/ckan.rs:448-460 | Every listed dataset has its page, with its own date and the hash of its own content. |
| Ckan.SecondSync | crates/assistant/src/ckan.rs:359-363 | A second sync of an unchanged catalogue hands over the undated datasets only. |
| Ckan.Chosen | crates/assistant/src/ckan.rs:431-444 | From one answer every listable name is taken once, up to the cap. |
| Ckan.ListTakesAll | crates/assistant/src/ckan.rs:424-466 | Short of the cap, a whole listing took every listable name its answers held, and read on exactly until an answer was empty or the hundreds of the answers reached the count. |
| Worklists.ClosedAndReachedIsAll | scripts/ci/rdeps.py:41-48 | A closed set of reached nodes is the set of all reached nodes and the least closed one. |
| Worklists.Follow | scripts/ci/rdeps.py:41-48 | The stack loop ends, and what it saw is exactly what paths reach from the starts, repeats on the stack or not. |
| Worklists.FindByFolder | scripts/ci/rdeps.py:33-33 | The package of each folder, the last one in the order of the names. |
| Worklists.FolderNamesItsPackage | scripts/ci/rdeps.py:32-33 | A folder names a package exactly when some manifest is in it, and then one whose manifest is. |
| Worklists.LastOfItsName | scripts/ci/rdeps.py:32-32 | The package of a name is the last one given of it. |
| Worklists.FolderIsTheLast | scripts/ci/rdeps.py:33-33 | Of the packages of one folder, the folder stands for the one whose name comes in last. |
| Worklists.Reach | scripts/ci/rdeps.py:28-48 | The whole workspace for no folder, `all` or a folder of no package; else exactly the least set of the folders' packages closed under dependents. |
| Worklists.ReachedDependsOnAStart | scripts/ci/rdeps.py:36-48 | A package is reached exactly when a chain of workspace dependencies leads from it to a seed. |
| Worklists.Unreachable | dev/cg-dead-code.py:108-146 | Exactly the production symbols, mains apart, that no path of edges and type-to-implementation steps reaches from an entry. |
| Worklists.ReachedByAChain | dev/cg-dead-code.py:112-144 | A symbol is reached exactly when a chain leads to it from an entry, each symbol named by the one before or implementing a trait for that struct, enum or alias. |
| WriteBudget.ShareCovers | crates/context-gateway/src/app.rs:288-295 | A share is the KiB of the body, rounded up and at least one, or the whole budget when that is less: it covers its body when the budget does, and by less than one KiB. |
| WriteBudget.BudgetIs | crates/context-gateway/src/app.rs:261-267 | A budget set in MiB is its KiB, at least one and at most what 32 bits hold. |
| WriteBudget.AdmittedAtOnce | crates/context-gateway/src/app.rs:281-301 | With nobody waiting a write is admitted at once exactly when the KiB of the admitted bodies and its own, each rounded up, at least one and at most the budget, total at most the budget; otherwise it waits. |
| WriteBudget.Budget.WriteShare | crates/context-gateway/src/app.rs:288-301 | A write joins the queue, an unknown length as the largest body, and the queue settles; with nobody waiting it is let in exactly when the KiB total fits. |
| WriteBudget.Budget.Settle | crates/context-gateway/src/app.rs:283-287 | Free shares go to the front of the queue as long as it fits. |
| WriteBudget.Budget.Done | crates/context-gateway/src/app.rs:288-301 | A finished write gives its share back and the queue settles. |
| WriteBudget.Budget.GiveUp | crates/context-gateway/src/app.rs:297-300 | A write whose wait is over leaves the queue. |
| WriteBudget.ValidKept | crates/context-gateway/src/app.rs:261-301 | Every step keeps the shares taken within the budget, the front of the queue waiting only for what does not fit, and every write there once. |
| WriteBudget.WithinTheBudget | crates/context-gateway/src/app.rs:281-287 | The bodies admitted total at most the budget, or one body larger than it is admitted alone. |
| WriteBudget.EveryRunStaysWithin | crates/context-gateway/src/app.rs:281-301 | So it is after every run of steps. |
| WriteBudget.SettledMovesTheFront | crates/context-gateway/src/app.rs:283-285 | Admission is first come, first served. |
| WriteBudget.OneWriteLess | crates/context-gateway/src/app.rs:283-285 | Every finished write brings a queued one, told from all others by its number, nearer; none gets in front of it. |
| WriteBudget.NoWriteWaitsForEver | crates/context-gateway/src/app.rs:283-285 | Once as many writes are done as were admitted or in front of it, a queued write was admitted or gave up. |
| WriteBudget.SomebodyIsAdmitted | crates/context-gateway/src/app.rs:281-287 | A queued write never waits for nobody. |
| Tickets.FoldIsEquality | crates/agent-proxy/src/tickets.rs:84-86 | The xor and or fold is zero exactly for equal bytes. |
| Tickets.CacheIsInvisible | crates/agent-proxy/src/tickets.rs:41-79 | After every run of looks, insertions and removals, a verify answers what parsing and Argon2 answer, when its ticket shares no digest with another presented one. |
| Tickets.WrongExactly | crates/agent-proxy/src/tickets.rs:46-55 | It answers otherwise exactly when the known ticket is another of the same digest that Argon2 takes while it refuses this one. |
| Tickets.EntriesAreEarned | crates/agent-proxy/src/tickets.rs:68-70 | Every entry was kept for a ticket Argon2 took against that very hash. |
| Tickets.KnownUntilItsOwn | crates/agent-proxy/src/tickets.rs:46-79 | A kept ticket stays known through all calls of other runs. |
| Tickets.TicketCache.Known | crates/agent-proxy/src/tickets.rs:47-55 | The look answers exactly for the ticket and the stored hash of the entry. |
| Tickets.TicketCache.Verify | crates/agent-proxy/src/tickets.rs:41-72 | The answer, the entry and the count of Argon2 runs of one verify. |
| Tickets.TicketCache.Drop | crates/agent-proxy/src/tickets.rs:75-79 | A forgotten run is not known. |
| Layers.Violations | scripts/ci/check-crate-layers.py:56-99 | The report holds every finding and nothing else. |
| Layers.ReportedExactly | scripts/ci/check-crate-layers.py:56-99 | Finding by finding, when the report holds it: a crate not placed, one on itself, a dev-dependency on one that depends back, an edge not below, an exception no longer needed. |
| Layers.AllowedIsBelow | scripts/ci/check-crate-layers.py:40-46 | A crate may depend on every layer below its own but the tools, and a tool on the two core layers only. |
| Layers.EdgesAre | scripts/ci/check-crate-layers.py:64-69 | The edges are those of normal and of build dependencies between members. |
| Layers.CleanEdge | scripts/ci/check-crate-layers.py:64-92 | In a clean workspace every edge is allowed or the exception, and leads down in one order of all crates. |
| Layers.PathsLeadDown | scripts/ci/check-crate-layers.py:56-99 | So does every path. |
| Layers.CleanIsAcyclic | scripts/ci/check-crate-layers.py:56-99 | A clean workspace's normal and build graph has no cycle, the exception included. |
| Layers.DependsBackExactly | scripts/ci/check-crate-layers.py:81-86 | A dev-dependency on a crate that depends back passes exactly from the base crate to a tool that reaches it through one crate. |
| Layers.DependsBackHappens | scripts/ci/check-crate-layers.py:81-86 | A clean workspace with such a cycle. |
| Tally.EveryCallOnce | crates/context-gateway/src/activity.rs:212-240 | Per row, the calls noted are those posted, those held, those dropped as a new row past the limit and those past what a row can count. |
| Tally.NothingDropped | crates/context-gateway/src/activity.rs:212-224 | A run of at most 10 000 different calls drops none, and one of fewer than 2^64 loses none. |
| Tally.AlwaysBounded | crates/context-gateway/src/activity.rs:212-224 | There are never more than 10 000 rows, and each counts at least one call. |
| Tally.RowIsItsCalls | crates/context-gateway/src/activity.rs:104-112 | A held row starts at the first call noted since it was last posted, and counts all since. |
| Tally.TakeParts | crates/context-gateway/src/activity.rs:226-240 | A post and what is left are the rows as they were; an anonymous row stays unless it is due, and a full post leaves none. |
| Tally.OneListing | crates/context-gateway/src/activity.rs:238-239 | A sorted post of the rows is one sequence, whatever order the map has. |
| Tally.CallsInOneOrder | crates/context-gateway/src/activity.rs:97-116 | The order of the rows is total, antisymmetric and transitive. |
| Tally.RowsOrder | crates/context-gateway/src/activity.rs:97-116 | The order is by kind, project, space, Endpoint, caller, tool and outcome, the first that differs deciding. |
| Tally.TextUpToExactly | crates/context-gateway/src/activity.rs:97-116 | A text stands before another exactly when it starts it, or has the earlier character where they first differ. |
| Tally.RowNamesATool | crates/context-gateway/src/activity.rs:144-210 | A tool's name reaches its row as it was sent when it is one a tool could have, and as `unknown` otherwise. |
| Tally.Retain | crates/context-gateway/src/activity.rs:230-237 | The due rows go out, each once, and exactly the others stay. |
| Tally.Tally.Add | crates/context-gateway/src/activity.rs:212-224 | One call is one step of the tally. |
| Tally.Tally.Record | crates/context-gateway/src/activity.rs:186-210 | A call on a space without a name changes nothing; any other is one step. |
| Tally.Tally.TakeDue | crates/context-gateway/src/activity.rs:228-240 | The rows given out are the due ones, each once, in order. |

## Left out

- HTTP, TLS, SQL, DNS, the realm, the broker and the file system: their answers are parameters, and a database transaction is one atomic step.
- SHA-256, Argon2, the ZIP inflater, `JSON.parse` and the embedding model are functions; a claim that needs digests to differ names the values whose digests must differ.
- Clocks are inputs. The source reads them before it waits for a lock, so that the readings come in the order of the steps is a premise where a claim says so; without it Credentials.HeldIsMinted and Credentials.OnlyMintedSecretsVerify hold.
- Mqtt.Session: the CONNECT and CONNACK handshake before the first frame, the pause between frames and the reading on the wire are not part of it; the broker's packets are given, and silence is their end.
- Archive.InflatedWithin: the sizes an entry really unpacks to are given, since the inflater is a foreign library; `sniff`'s other file types, `file_name` and folders are simpler checks.
- Guide: `inline`, `body_html`, `sections` and `sync_guide` render and store pages and are not modelled; characters are Unicode scalar values.
- EventStream: the decoding of bytes to text is not modelled; a chunk is its text.
- Percent: text is octets; `from_utf8_lossy` after decoding and the router are not modelled.
- Turns: dropping the future of a task while its text is being embedded, which gives the permit back before the text is done, and the batch loops that call the turns.
- Grants.Grants.Bind: introspection and token exchange before the hand-over; a realm that fails to answer a revocation; the sweep of finished runs, which is a sequence of ends. Access tokens and accepted refreshes do not change the map.
- Grants.NothingLeaksFromTheStart: a grant the realm named no session for is retired as its own; sessions without a name are not followed.
- Search: what makes a score, and `titles_projects`; scores are real numbers, so NaN and signed zero do not occur.
- Limits: the per-run ceilings of steps, tokens and egress and the daily ledgers, which are sums compared with a cap.
- Ckan.Site.Sync: the rendering of a dataset, a catalogue address that cannot be joined with a name, and a write that fails in the middle of an answer, after which nothing is removed either.
- Worklists.Unreachable: which symbols are entries is given as a set; the string rules behind it, and the sorted order of both outputs, are not modelled.
- WriteBudget: the semaphore hands a waiting write its whole share at once; tokio reserves it in parts, which admits the same writes in the same order.
- Layers.Violations: the wording and order of the report.
- Tally.Tally.TakeDue: the OTLP record of a row and the post itself, which is not repeated when it fails.
- The catalogue's count cache and partition of types, the storing of extracted pages under the site's caps, policies, cron and crawling: bookkeeping whose statements would be easy beside the ones above.
