# SkyNetControl: a verification model

This project models the parts of SkyNetControl, a manager for amateur-radio nets and live events, whose state lives
longer than one call, and proves what they keep over all inputs and all runs. Code that updates state is modelled as
classes and loops proved against functions; the laws are lemmas about those functions.

- **Winlink messages** (`Utf8`, `Utf8Replacement`, `PyText`, `PyNumbers`, `B2f`, `B2fHeaderLaws`, `B2fRoundTrip`,
  `B2fSections`, `B2fRejections`): the .b2f builder and parser over bytes, with Python's slicing, `int()`, `strip` and
  UTF-8 decoding written out. Parsing undoes building exactly for filenames that can stand on their line; what is
  rejected, and why, can be read off the message itself; the section loop accounts for every byte, and never returns
  on certain negative lengths, characterised exactly.
- **Rate limiting** (`RateLimit`, `RateLimitLaws`, `RateLimitSweep`): token buckets with lazy refill and an
  opportunistic sweep, over reals and a monotone clock. Admission is characterised by windows, and the sweep shown
  invisible exactly when every route refills within the TTL.
- **Fetched documents** (`FetchCache`): the TTL and LRU dict of OIDC discovery documents, and again of JWKS keys, with
  the fetch between lookup and store as a suspension point.
- **APRS** (`AprsStore`, `AprsStoreLaws`, `AprsPolling`, `ObjectNames`, `ObjectNaming`, `Beacon`, `AprsClient`): the
  bounded position store refines an unbounded one and its polls lose nothing; object names are valid, distinct and
  stable; syncing by differences keeps the receivers at the desired objects through failures at any packet.
- **Live events** (`Events`, `EventStore`, `EventLaws`, `EventTimes`, `EventEffects`, `EventRuns`, `EventMail`,
  `EventReport`, `EventStints`, `EventHistory`): the lifecycle, posts, participants, log and mail routing as
  transactions; what each leaves and what holds in every reachable state; the report as a replay of the log; polling.
- **Deliveries and PAT sessions** (`Delivery`, `DeliveryOutcomes`, `PatSteps`, `PatSession`, `PatSessionLaws`,
  `PatOutcomes`): the delivery rows, and the connect engine as a state machine over the steps between its suspension
  points. Which interleavings lose single flight or bring an aborted session back is characterised exactly, over whole
  runs.
- **Check-ins and rosters** (`CheckInImport`, `CheckInLaws`, `CheckInPhases`, `CheckInRows`, `Finalisation`,
  `FinalisationLaws`, `FinalisationEffects`, `RosterTable`, `RosterReading`): importing in one or two phases, the
  conservation of member totals over every workflow, and the roster table as a readable format.

Four promises hold only under a condition, and are stated with it: parsing ends for every input (not with some
negative lengths), an aborted session stays ended (not when the abort comes before the run's first segment, which no
caller that learns the session's id from `start` can bring about: `PatSessionLaws.AsUsedNoneRevived`), there is one
run at a time (not when one starts while a shutdown waits for another), and a dispatch's answer can be read off its
rows (not when a backend is listed twice). The documentation of `classify_timing` speaks of the session window and a
grace period, but the grace period decides no message's timing in any session that ends after it starts.

`dafny verify dfyconfig.toml` checks the whole project.

## Model

| member | source | states |
|---|---|---|
| B2fRoundTrip.ParseInvertsBuild | backend/integrations/winlink/b2f.py:54-174 | For every draft, with LF or CRLF framing, parsing what was built returns each header sanitised, the exact body and the exact attachments in order, whatever text and bytes they hold, if and only if every filename is non-empty, trimmed and free of newlines |
| B2fRoundTrip.ParsedNamesAreGood | backend/integrations/winlink/b2f.py:120-134 | Whatever bytes are parsed, every filename returned is one the builder could have written |
| B2fRoundTrip.HeaderReadBack | backend/integrations/winlink/b2f.py:61-98 | The parser finds the end of a built header block where the builder put it, and reads every field and the body length back |
| B2fRoundTrip.SeparatorAfterQuiet | backend/integrations/winlink/b2f.py:61-74 | The blank line is found right after a header block that holds none itself, even when the payload is full of blank lines of either kind |
| B2fRoundTrip.ReadBuiltSection | backend/integrations/winlink/b2f.py:107-135 | One pass over a built section returns its attachment and leaves exactly what follows it |
| B2fHeaderLaws.HeaderSafeJoinsWords | backend/integrations/winlink/b2f.py:48-51 | A sanitised header value is the whitespace-separated words of the value joined by single spaces |
| B2fHeaderLaws.HeaderSafeIsOneLine | backend/integrations/winlink/b2f.py:48-51 | No value, whatever it holds, can start a second header line or end in blanks |
| B2f.Build | backend/integrations/winlink/b2f.py:140-174 | The builder's accumulation over the attachments writes exactly the message the laws speak about |
| B2f.ReadHeaderBlock | backend/integrations/winlink/b2f.py:79-95 | The header loop: blank lines skipped, later fields win, the Body length parsed, malformed lines and lengths refused in order |
| B2f.ReadAttachments | backend/integrations/winlink/b2f.py:105-135 | The section loop, and when it does not end |
| B2f.ParseBody | backend/integrations/winlink/b2f.py:97-137 | Missing, oversized and negative body lengths as the slices treat them, then the sections |
| B2f.ParseMessage | backend/integrations/winlink/b2f.py:54-137 | The whole parse as composed of the steps above |
| B2fSections.ParseEndlessExactly | backend/integrations/winlink/b2f.py:54-137 | Parsing a whole message never returns if and only if its header is sound, its body fits, and one pass over its sections begins with a File: line, right where the bytes begin, whose negative length puts the end of its data at or before that beginning |
| B2fSections.NoEndExactly | backend/integrations/winlink/b2f.py:105-135 | The section loop never ends if and only if one of its passes begins with such a line |
| B2fSections.NoEndRunsForEver | backend/integrations/winlink/b2f.py:105-135 | The outcome standing for a loop that never ends is given exactly when any number of passes can be made |
| B2fSections.StuckIsNoProgress | backend/integrations/winlink/b2f.py:107-135 | Such a line, recognised from its text and size alone, is exactly what a pass leaves untouched |
| B2fSections.StuckExactly | backend/integrations/winlink/b2f.py:107-135 | A pass changes nothing exactly when no newline precedes its File: line and the announced length puts the end of the data at or before the first byte |
| B2fSections.NonNegativeLengthConsumes | backend/integrations/winlink/b2f.py:129-135 | A length of zero or more strictly shrinks what remains, and the data has that length |
| B2fSections.NonNegativeLengthsEnd | backend/integrations/winlink/b2f.py:105-135 | With non-negative lengths the loop always ends |
| B2fSections.NegativeLengthNeverReturns | backend/integrations/winlink/b2f.py:54-137 | A concrete whole message, with an empty body and one section of negative length, on which the parser never returns |
| B2fSections.SectionsAccount | backend/integrations/winlink/b2f.py:105-135 | On success separators, one File: line each and the attachment data concatenate to exactly the bytes read, but for at most one final newline, and each line announces just the length of its data and the filename returned |
| B2fSections.ParseAccounts | backend/integrations/winlink/b2f.py:54-137 | On success, whatever the sign of the body length, header block, blank line, body, separators, one File: line for each attachment announcing just its length and filename, and attachment data concatenate to exactly the input bytes but for at most one final newline, when no File: length is negative |
| B2fRejections.ParseRejectsExactly | backend/integrations/winlink/b2f.py:54-137 | A message is rejected, with that error, if and only if it has no blank line, or its first header line with a fault has that one (no colon, or a body length that is no number), or no line gives a body length, or the last to give one gives more than there is, or some section begins with what cannot be read |
| B2fRejections.HeaderRefusedExactly | backend/integrations/winlink/b2f.py:79-95 | A header block is refused exactly for the fault of its first line with one, blank lines being skipped |
| B2fRejections.ParsedHeadersAre | backend/integrations/winlink/b2f.py:79-95 | Of a message that is read each header has the value of the last line with its key, and there are no others |
| B2fRejections.BodyLengthIs | backend/integrations/winlink/b2f.py:91-98 | The body length is the one the last line with a body key, in whatever case, gives |
| B2fRejections.RunRefusedExactly | backend/integrations/winlink/b2f.py:105-135 | The section loop refuses what it is given if and only if some pass begins with bytes without a line, or with a line that is no File: line, has no blank after its length, no number there, or announces more than there is |
| PyNumbers.IntReadsExactly | backend/integrations/winlink/b2f.py:91-127 | A length is accepted if and only if, blanks around it aside, it is an optional sign and digits with single underscores between them |
| PyNumbers.NumeralWrites | backend/integrations/winlink/b2f.py:91-127 | The number read is the one its digits write, whatever zeros come first |
| Utf8.DecodeInvertsEncode | backend/integrations/winlink/b2f.py:76-174 | Decoding with errors replaced undoes encoding, whatever bytes follow |
| Utf8.AsciiByteIffChar | backend/integrations/winlink/b2f.py:114-117 | A newline byte occurs in encoded text exactly where the text has a newline |
| Utf8Replacement.DecodesExactly | backend/integrations/winlink/b2f.py:76-114 | Bytes that start with an encoded character decode to it and the rest; any others to one U+FFFD for the longest stretch that could have begun a character |
| PyText.DecimalRoundTrip | backend/integrations/winlink/b2f.py:93-168 | int() reads back every length the builder writes |
| RateLimitLaws.AdmissionExact | backend/auth/rate_limit.py:79-98 | In any run of any clients, with the sweep at work, a request is granted if and only if granting it keeps the client's grants in every window that starts at one of its requests and ends now within capacity + rate x length |
| RateLimitLaws.WindowBound | backend/auth/rate_limit.py:88-98 | Grants to one client in any time window number at most capacity + rate x length |
| RateLimitLaws.SpacedClientNeverRefused | backend/auth/rate_limit.py:88-98 | A client that keeps 1/rate between its requests is never refused |
| RateLimitLaws.SweepIsInvisible | backend/auth/rate_limit.py:79-98 | When every route refills within the TTL, every answer of every run is that of a limiter that never forgets a bucket |
| RateLimitSweep.SweepInvisibleExactly | backend/auth/rate_limit.py:27-98 | For whole positive capacities the sweep changes no answer of any run if and only if every route refills its capacity within the TTL |
| RateLimitSweep.AdmissionExactlyWhenRefilled | backend/auth/rate_limit.py:27-98 | For whole positive capacities the exact admission law holds of every run if and only if every route refills its capacity within the TTL |
| RateLimitSweep.SweepShows | backend/auth/rate_limit.py:79-98 | For a route that refills more slowly, a run on which the sweep does change an answer |
| RateLimit.TableSize | backend/auth/rate_limit.py:79-98 | After every call the table has at most 10000 buckets or every bucket was touched within the last 600 seconds |
| RateLimit.TablesAgree | backend/auth/rate_limit.py:79-98 | The swept table is the full one without some buckets that are full again |
| RateLimit.Limiter.MaybeSweep | backend/auth/rate_limit.py:79-85 | The eviction loop removes exactly the idle buckets, and only from a full table |
| RateLimit.Limiter.Consume | backend/auth/rate_limit.py:88-98 | One request: the bucket after lazy refill decides the answer and is stored back with a token taken when there was one |
| FetchCache.ReuseIsAHit | backend/auth/service.py:177-202 | In calls made one after another, a URL whose document was fetched, or was in the cache, is served again with that document for an hour from that fetch, or from the time stored with it, if fewer than 64 other URLs were asked for since, and misses after that |
| FetchCache.FetchedIsReusedWithinTtl | backend/auth/service.py:177-202 | A document fetched at some moment is a hit for every call less than an hour after that moment with fewer than 64 other URLs in between, and a miss for every later one |
| FetchCache.OneFetchServesAll | backend/auth/service.py:181-202 | One fetch serves any number of calls for its URL within the hour, if fewer than 64 other URLs are asked for between one and the next, however many in all |
| FetchCache.HitIsRecent | backend/auth/service.py:181-202 | Under any interleaving of lookups and completed fetches, a cached answer is a document fetched for that URL by a call that began less than an hour before |
| FetchCache.AfterIsSound | backend/auth/oidc_verify.py:79-97 | Under any interleaving the cache holds at most 64 entries, one per URL, each really fetched |
| FetchCache.Cache.BeginGet | backend/auth/service.py:181-195 | The part before the await: a fresh entry moves to the recently used end, a stale one goes |
| FetchCache.Cache.FinishGet | backend/auth/service.py:195-202 | The part after the await: the oldest entry makes room when the cache is full |
| ObjectNames.FindObjectName | backend/integrations/aprs/protocol.py:60-71 | The search loop finds the first free candidate, or none |
| ObjectNames.ObjectNameIsValid | backend/integrations/aprs/protocol.py:60-71 | A name is 1 to 9 characters of [A-Z0-9] and is not taken |
| ObjectNaming.NameIsFirstFree | backend/integrations/aprs/protocol.py:60-71 | A name is the first nine capital letters and digits of the post's name in upper case, or POST when it has none, when they are free, and otherwise as much of them as leaves room for the smallest number from 2 to 99 that makes it free; it fails exactly when none does |
| ObjectNaming.ObjectsAreNamed | backend/integrations/aprs/beacon.py:25-32 | Each object is named so after its own post, free of the names of the posts before it |
| ObjectNaming.UnnamedPost | backend/integrations/aprs/beacon.py:25-32 | Naming an event's posts fails only at a post whose base is taken with every number up to 99 |
| ObjectNames.NamesSuffice | backend/integrations/aprs/protocol.py:60-71 | With at most 89 names taken naming never fails |
| ObjectNames.DesiredObjects | backend/integrations/aprs/beacon.py:11-35 | The naming loop over an event's posts in id order, empty when beaconing is off |
| ObjectNames.DesiredNamesDistinct | backend/integrations/aprs/beacon.py:25-32 | One object per post with coordinates, in order, each where its post is, with valid and pairwise distinct names |
| ObjectNames.LaterPostsRenameNothing | backend/integrations/aprs/beacon.py:25-32 | Adding posts with later ids never renames the objects of earlier ones |
| ObjectNames.NinetyPostsAreNamed | backend/integrations/aprs/beacon.py:25-32 | Up to 90 posts with coordinates can always be named |
| Beacon.SyncAgrees | backend/integrations/aprs/beacon.py:43-59 | From receivers that show what is announced (and objects other connections left), a sync carried out in full leaves announced and receivers at exactly the desired objects; one that fails after any number of packets leaves the two differing on at most the name of the packet that failed; after a full sync receivers show nothing else if and only if every object others left is itself desired |
| Beacon.PlanReaches | backend/integrations/aprs/beacon.py:43-59 | The kills of what is no longer desired and the packets for what is new or moved, heard in order, turn what was announced into exactly the desired objects |
| Beacon.Client.SendObjects | backend/integrations/aprs/beacon.py:43-59 | The packets attempted are the plan's, in order, up to the first that fails: one kill of each name no longer desired, then the live packets; the sync goes through exactly when none fails and every post can be named, and announced follows the packets that went through |
| Beacon.Client.SendKills | backend/integrations/aprs/beacon.py:47-51 | The kill loop sends the kills in order until one fails, and keeps announced in step with those that went through |
| Beacon.Client.SendLive | backend/integrations/aprs/beacon.py:53-57 | The live loop sends what is new or has moved, or everything when forced, in order until one fails |
| Beacon.Client.KillAll | backend/integrations/aprs/beacon.py:62-69 | Exactly one kill of each announced name is attempted whatever becomes of the others, and exactly the failed ones are missed; when none fails, all of them are gone from the receivers |
| Beacon.StopLeaves | backend/integrations/aprs/beacon.py:62-69 | After a stop only names whose kill failed can remain of what the connection announced; when none failed the receivers show only what others left |
| Beacon.ByPostInverts | backend/integrations/aprs/beacon.py:59 | The index by post sends each post to its own object's name and knows no other post |
| Beacon.NothingChangedNothingSent | backend/integrations/aprs/beacon.py:53-57 | With nothing changed an unforced sync sends no object, a forced one sends each once |
| AprsClient.RunConnection | backend/integrations/aprs/client.py:97-153 | Over a whole connection: every completed pass was wanted, not hung up on, and sent exactly the sync its change asked for and the full broadcast it was due; while it lasts no send has failed and receivers show the objects desired at the last sync plus what was live before and never desired; asked to stop it sends one kill of each object announced and leaves exactly what was live before and never desired when no kill failed; it breaks only because the last packet sent failed (leaving that name in doubt), the server hung up, or a post could not be named |
| AprsClient.RunPass | backend/integrations/aprs/client.py:120-153 | One pass: it stops exactly when no longer wanted, breaks at once when hung up on, and otherwise sends the sync a change asks for and the forced one a broadcast is due |
| AprsClient.DuePassBroadcasts | backend/integrations/aprs/client.py:146-149 | On every completed pass that comes when a broadcast is due, the last packets sent are one for every object then desired, in order, and all went through |
| AprsClient.Sync | backend/integrations/aprs/client.py:85-88 | One sync goes through exactly when every post can be named and no send fails; then it has sent exactly the kills and live packets it takes, every object when forced; what it leaves, seen from the connection's start |
| AprsClient.CleanStop | backend/integrations/aprs/client.py:151-153 | One kill of each announced object, names being missed exactly when their kill failed; only a verified client has objects to take off the air |
| AprsClient.BroadcastIsNeverLate | backend/integrations/aprs/client.py:122-149 | The next full broadcast is due 600 seconds after the last, and no pass in between came that late |
| AprsStoreLaws.StoreRefines | backend/integrations/aprs/store.py:34-90 | After every run the bounded store is an unbounded one with each trail cut to its last 120 points: the same stations in the same pools and order with the same facts, promoted stations keeping their trail |
| AprsStoreLaws.RunConsistent | backend/integrations/aprs/store.py:34-90 | In every reachable state the pools are disjoint, each id names one station, there are at most 200 other stations and no trail is longer than 120 points |
| AprsPolling.PointsAreUnique | backend/integrations/aprs/store.py:57-81 | No two points anywhere in the store share a sequence number |
| AprsPolling.RunNumbered | backend/integrations/aprs/store.py:57-81 | Every trail is made of the points heard from its station, in the order they were heard, numbered as heard |
| AprsPolling.RunOrdered | backend/integrations/aprs/store.py:83-86 | The other stations are always in the order of their last reports |
| AprsPolling.EvictsLeastRecentlyHeard | backend/integrations/aprs/store.py:83-86 | A report makes at most one station disappear: another one, heard longer ago than every other station that stays, and only to keep the cap |
| AprsPolling.PollIsCompleteExactly | backend/integrations/aprs/store.py:92-112 | A poll gives the points, heard since the cursor, of a station that did not leave since, or appeared only then, completely if and only if at most 120 came in |
| AprsPolling.PollGivesLast | backend/integrations/aprs/store.py:92-112 | A poll gives exactly the last 120 of the points heard since the cursor of such a station |
| AprsPolling.SnapshotShowsAll | backend/integrations/aprs/store.py:92-112 | After any run a snapshot shows every present station once, participants first and the others from least to most recently heard, with all that is known of it |
| AprsPolling.ChainedPollsLoseNothing | backend/integrations/aprs/store.py:92-112 | A client polling with its last cursor, with at most 120 points of a station between polls, gets every point heard from it since polling began, whether the station was there then or appears later, as long as it does not leave; polling from the start, its whole trail |
| AprsStore.EventPositionStore.AddPoint | backend/integrations/aprs/store.py:44-87 | One report: promotion, creation, facts, the bounded trail and the next sequence number |
| AprsStore.EventPositionStore.TrackParticipant | backend/integrations/aprs/store.py:68-81 | A participant's station is created or updated in place |
| AprsStore.EventPositionStore.TrackOther | backend/integrations/aprs/store.py:68-87 | Another station moves to the recently heard end and the oldest goes when there are too many |
| AprsStoreLaws.DropOthersRefines | backend/integrations/aprs/store.py:89-90 | Dropping the others forgets every station that is not a participant, with its trail, and keeps every participant whole |
| AprsStore.EventPositionStore.Snapshot | backend/integrations/aprs/store.py:92-112 | Every station, with the points after the cursor, and the next cursor |
| EventLaws.ReachableIsConsistent | backend/modules/events/service.py:62-549 | In every reachable state, whatever the clock did: closed_at set exactly on closed events and checked_out_at exactly on checked-out participants; assigned posts exist in the same event; post names and callsigns unique per event; log and message numbers exactly 1, 2, 3, ...; each participant's status the last one logged for its callsign |
| EventTimes.ReachableIsOrdered | backend/modules/events/service.py:62-549 | As long as the clock never steps back, every log is in time order; that of a closed event ends with the entry of its closing, which sets no status and is dated no earlier than closed_at, and every other entry is dated no later than closed_at |
| EventLaws.ApplyKeeps | backend/modules/events/service.py:62-549 | Every operation keeps that, and a refused one, or one that finds nothing, changes nothing |
| EventEffects.CheckInLeaves | backend/modules/events/service.py:362-426 | After an accepted check-in exactly one participant of the event has the callsign, CHECKED_IN now and not checked out, at the post given, else the one it had, else none; its row and one log entry are all that changed |
| EventEffects.CheckInAnswers | backend/modules/events/service.py:372-401 | A check-in is accepted if and only if the callsign is not empty, the event active, the post, if any, the event's, and whoever has the callsign checked out; an event that is not active and a foreign post are refused as such, anything else as a duplicate |
| EventEffects.PatchLeaves | backend/modules/events/service.py:429-506 | After an accepted PATCH the participant has the status and post asked for, or those it had, a new date of leaving exactly when it was not gone before and a new date of arrival exactly when it was, one entry for each part given, and nothing else changed |
| EventEffects.PatchAnswers | backend/modules/events/service.py:440-486 | When a PATCH is accepted, when it finds nothing, and when it is refused for what |
| EventRuns.PostIsLastGiven | backend/modules/events/service.py:362-506 | In every reachable state a participant is at the post that the last accepted check-in or PATCH of it to name or clear one gave it, and at none before |
| EventRuns.StatusIsLastGiven | backend/modules/events/service.py:178-213 | In every reachable state an event has the status and closing time that the last accepted activation, closing or reopening gave it, and is a draft before |
| EventRuns.LifecycleAnswers | backend/modules/events/service.py:178-213 | Activating needs a draft, closing an active event, reopening a closed one; anything else is refused |
| EventRuns.LifecycleLeaves | backend/modules/events/service.py:178-213 | A change of status changes that event's status and closing time and logs one entry, and nothing else |
| EventRuns.PostsAreLastGiven | backend/modules/events/service.py:268-332 | In every reachable state the posts are those created and not deleted since, each in its event under the name last given to it |
| EventRuns.PostAnswers | backend/modules/events/service.py:261-332 | Posts are refused on closed events, under the name of another post of the event, and deletion while somebody is assigned, each for its own reason and only then |
| EventReport.ReportReplays | backend/modules/events/service.py:555-614 | In every reachable state, whatever the clock did, a participant's report has a last stint that is open exactly when the participant is not checked out, and its total is the time present replayed from the log up to the cutoff, cut to whole seconds |
| EventStints.ReportListsStints | backend/modules/events/service.py:555-614 | In every reachable state the report lists, for whatever callsign, exactly one stint for each CHECKED_IN entry of it at which it was not there, in the order of the log, from that entry to the first CHECKED_OUT of it after that, open when there is none |
| EventStints.StintsAreLogged | backend/modules/events/service.py:588-602 | The same of any log that numbers its entries and changes statuses legally |
| EventReport.ReportIsOrdered | backend/modules/events/service.py:555-614 | As long as the clock never steps back, the stints are in time order and disjoint and the total is not negative |
| EventReport.TallyReplays | backend/modules/events/service.py:588-602 | Read entry by entry, the tally is open exactly while the last logged status is not CHECKED_OUT and adds up to the replayed time |
| EventReport.TallyOrdered | backend/modules/events/service.py:588-602 | Of a log in time order the stints are in order and apart |
| EventReport.ComputeReport | backend/modules/events/service.py:555-614 | The report loop gives each participant the row of its callsign, up to closed_at or now; which stints that row lists is what ReportListsStints says |
| EventReport.GroupByCallsign | backend/modules/events/service.py:566-577 | The grouping loop gives each callsign its status entries in order |
| EventReport.RowFromEntries | backend/modules/events/service.py:588-612 | The stint loop over one callsign's entries computes the row that StintsAreLogged and TallyReplays are about |
| EventHistory.ClosedIsFrozen | backend/modules/events/service.py:204-549 | Nothing but reopening it changes the posts, participants, messages or log of a closed event |
| EventHistory.ApplyExtends | backend/modules/events/service.py:69-94 | No operation removes or rewrites a log entry; only pins change |
| EventHistory.LogAtExtends | backend/modules/events/service.py:69-94 | Over any stretch of a run a log only grows at its end |
| EventHistory.PollingReconstructs | backend/modules/events/routes.py:658-673 | A client polling with its last sequence number has after each poll exactly the server's log, pins included, having received each entry once |
| EventHistory.PollCatchesUp | backend/modules/events/routes.py:658-673 | One poll and the pinned numbers bring a client that had the log back to having it |
| EventHistory.ReroutingCreatesNothing | backend/modules/events/messages.py:80-135 | Routing the same mail again after a whole pass creates nothing in any event |
| EventHistory.BrokenPassIsMadeUp | backend/modules/events/messages.py:80-135 | However a pass broke, a whole pass over the same mail afterwards leaves every event with exactly the messages one whole pass would have given it |
| EventMail.MailLeaves | backend/modules/events/messages.py:37-135 | Routing gives every active event exactly the stored messages meant for it that it did not have, in order, up to where the pass broke, each with its sender's base callsign and the id of exactly the participant of that callsign, none when there is none, and one log entry each; nothing else changes |
| EventMail.NoteLeaves | backend/modules/events/service.py:512-532 | Notes go on active events only, about the callsign given or none, pinned or not as asked, and change nothing else |
| EventMail.PinLeaves | backend/modules/events/service.py:535-549 | Pinning sets exactly the pin of the entry with that number, on events that are not closed |
| EventMail.SendLeaves | backend/modules/events/message_service.py:36-68 | An outbound message goes on active events only, as the last one, linked to no stored message |
| EventStore.Store.AddLogEntry | backend/modules/events/service.py:69-94 | The entry is appended with the next number |
| EventLaws.NewEventKeeps | backend/modules/events/service.py:100-125 | A new event is a draft without entries under a number no event had; every other event stays as it is and the tables consistent |
| EventStore.Store.ActivateEvent | backend/modules/events/service.py:178-189 | Only a draft event is activated; the change is logged |
| EventStore.Store.CloseEvent | backend/modules/events/service.py:192-201 | Only an active event is closed; one more entry, dated when it is written, and the closing time read before that |
| EventStore.Store.ReopenEvent | backend/modules/events/service.py:204-213 | Only a closed event is reopened; its closing time goes |
| EventStore.Store.PostNameTaken | backend/modules/events/service.py:261-265 | The search over posts finds a name clash exactly when there is one |
| EventStore.Store.CreatePost | backend/modules/events/service.py:268-286 | Refused on closed events and taken names |
| EventStore.Store.UpdatePost | backend/modules/events/service.py:289-317 | Renamed unless the event is closed, the post another event's, or the name taken by another post |
| EventStore.Store.DeletePost | backend/modules/events/service.py:320-332 | Refused while a participant is assigned to the post |
| EventStore.Store.FindParticipant | backend/modules/events/service.py:387-391 | The search by event and callsign |
| EventStore.Store.CheckIn | backend/modules/events/service.py:362-426 | A new participant, or a checked-out one back again, with its status logged; every refusal in the order of the code |
| EventStore.Store.PatchStatus | backend/modules/events/service.py:456-477 | The status part of a PATCH: illegal transitions refused, dates kept in step, the change logged |
| EventStore.Store.PatchPost | backend/modules/events/service.py:479-492 | The post part of a PATCH |
| EventStore.Store.UpdateParticipant | backend/modules/events/service.py:429-506 | The whole PATCH as one transaction: a post refused after the status was written undoes the status |
| EventStore.Store.AddNote | backend/modules/events/service.py:512-532 | A note about a participant or none, on active events only |
| EventStore.Store.SetLogPinned | backend/modules/events/service.py:535-549 | Pinning changes that one entry's pin |
| EventStore.Store.SendMessage | backend/modules/events/message_service.py:36-68 | An outbound message takes the next message number |
| EventStore.Store.RouteTo | backend/modules/events/messages.py:82-134 | One event's pass over the first messages of the mail: address, stored row and duplicates decide, each message taken is numbered and logged |
| EventStore.Store.RouteEventMessages | backend/modules/events/messages.py:37-135 | Every active event gets the mail it takes, others nothing; a pass that breaks after any message leaves what it committed; the count is the number of messages gained |
| Delivery.RunKeepsRows | backend/integrations/delivery/service.py:122-298 | Over any mix of dispatches, retries and reconciles no committed row is PENDING, sent_at is set exactly on SENT rows, SENT and QUEUED rows carry no error, and no row is lost |
| Delivery.AnswerTrustedExactly | backend/integrations/delivery/service.py:122-179 | Whether some row ends SENT or QUEUED tells the answer of a dispatch, whatever the backends reply, if and only if no backend name repeats |
| Delivery.AnswerMatchesRows | backend/integrations/delivery/service.py:122-179 | With distinct backend names some backend succeeded exactly when some row ends SENT or QUEUED |
| Delivery.RepeatedNameMisleads | backend/integrations/delivery/service.py:122-179 | For a repeated name, replies for which the answer is true and every row is FAILED |
| Delivery.LastReplyStands | backend/integrations/delivery/service.py:122-179 | A row holds the last reply of its backend |
| DeliveryOutcomes.DispatchTells | backend/integrations/delivery/service.py:122-179 | A backend asked before any exception and not again leaves a QUEUED row with exactly the MID of a queued success, a SENT row with the time of a plain one, and a FAILED row with the error of a refusal or an unknown backend, created now |
| DeliveryOutcomes.DispatchLeavesOthers | backend/integrations/delivery/service.py:122-179 | Every other row is as it was |
| DeliveryOutcomes.RetryTells | backend/integrations/delivery/service.py:257-298 | A retry leaves the same in the FAILED rows it asks again, what they told where the backend is unknown, and every other row as it was |
| DeliveryOutcomes.QueuedUntilGone | backend/integrations/winlink/pat_session.py:90-109 | While it is not dispatched again a queued Winlink row with a MID stays as it is, through any dispatches, retries and reconciles, until the first reconcile whose outbox lacks the MID; that one makes it SENT, by its session at its time, and so it stays |
| DeliveryOutcomes.QueuedIsSentOnceGone | backend/integrations/delivery/service.py:122-179 | From the dispatch that queued it to the reconcile that finds it gone: QUEUED under the reply's MID in between, SENT after |
| Delivery.Log.Dispatch | backend/integrations/delivery/service.py:122-179 | The dispatch loop: one row per backend reset and written, exceptions rolling back their own row, and what is answered |
| Delivery.Log.RetryFailed | backend/integrations/delivery/service.py:257-298 | The retry loop asks exactly the FAILED rows selected and changes no other |
| Delivery.Log.ReconcileOutbound | backend/integrations/winlink/pat_session.py:90-109 | Exactly the QUEUED winlink rows whose non-empty MID left the outbox become SENT, and their number is returned |
| PatSessionLaws.FinalStatesStay | backend/integrations/winlink/pat_session.py:60-222 | Over any stretch of any interleaving of segments, frames, aborts, starts and shutdowns COMPLETED and FAILED stay with their end times, and the event list is append-only |
| PatSessionLaws.SessionsAdvanceExactly | backend/integrations/winlink/pat_session.py:60-222 | Throughout an interleaving every session only moves on (what is final stays, ABORTED becomes at most FAILED, events are kept) if and only if no first segment comes after an abort |
| PatSessionLaws.EndTimesExactly | backend/integrations/winlink/pat_session.py:60-222 | Throughout an interleaving ended_at is set exactly in the terminal states if and only if no first segment comes after an abort |
| PatSessionLaws.SingleFlightExactly | backend/integrations/winlink/pat_session.py:117-222 | Throughout an interleaving the engine's run is the only unfinished one if and only if no shutdown ends while a run started in the meantime is unfinished |
| PatSessionLaws.AtMostOneRun | backend/integrations/winlink/pat_session.py:117-222 | At most one run is unfinished as long as no shutdown has ended in that way |
| PatSteps.StepCoherent | backend/integrations/winlink/pat_session.py:117-222 | Every step, failed writes and cancellations included, keeps each run's suspension point in step with the status stored for it |
| PatSteps.StepKeepsFinal | backend/integrations/winlink/pat_session.py:60-222 | No step changes a COMPLETED or FAILED session's status or end time or drops an event |
| PatSteps.StepMovesExactly | backend/integrations/winlink/pat_session.py:60-222 | A step moves sessions only forward if and only if it is not a first segment that comes after an abort |
| PatSteps.StepEndedExactly | backend/integrations/winlink/pat_session.py:60-222 | A step keeps ended_at set exactly in terminal states if and only if it is not that one |
| PatSteps.StepSingleFlightExactly | backend/integrations/winlink/pat_session.py:117-222 | A step keeps single flight if and only if it is not the last step of a shutdown during which another run was started |
| PatSessionLaws.AsUsedNoneRevived | backend/integrations/winlink/pat_session.py:117-211 | When no abort is written before its session's first segment, which holds of callers that learn the id from start, no session is revived, end times are in step and sessions only move on, in every run |
| PatSessionLaws.EarlyAbortRevived | backend/integrations/winlink/pat_session.py:137-211 | A concrete interleaving of the two writes, an abort before the first segment, in which the abort is undone |
| PatSessionLaws.ShutdownForgetsARun | backend/integrations/winlink/pat_session.py:117-222 | A concrete interleaving with two live runs after a shutdown that forgot one |
| PatSteps.CompletedCounts | backend/integrations/winlink/pat_session.py:167-198 | A run completes exactly when connect returned and nothing ended the session before, and counts exactly the rows it flipped |
| PatOutcomes.WindUpLeaves | backend/integrations/winlink/pat_session.py:151-200 | A run winding up leaves a session whose connect failed or timed out FAILED with that reason and time, one whose connect returned COMPLETED unless it had ended before, and otherwise what was there; other sessions, and the deliveries unless connect returned, stay |
| PatOutcomes.UndisturbedRunsEnd | backend/integrations/winlink/pat_session.py:137-200 | In any interleaving a run that is over and had no failed write, exception or cancellation has left its session in a terminal status |
| PatOutcomes.FailuresAreRecorded | backend/integrations/winlink/pat_session.py:151-165 | In any interleaving a session whose connect failed or timed out ends FAILED for that very reason when its run is not disturbed, and stays so, aborts included |
| PatOutcomes.AbortsStick | backend/integrations/winlink/pat_session.py:202-211 | A session aborted at some point is terminal from then on, when no first segment comes after an abort |
| PatOutcomes.SessionsFollowFrames | backend/integrations/winlink/pat_session.py:60-79 | In any interleaving a session's events are exactly those of its frames in order, and while its run is at work a session not aborted is SYNCING exactly when one of them said the link is up |
| PatOutcomes.ResultsFit | backend/integrations/winlink/pat_session.py:82-200 | In any interleaving an error is stored exactly on FAILED sessions and counts on COMPLETED ones only |
| PatSession.Engine.Start | backend/integrations/winlink/pat_session.py:117-135 | Refused while a run is unfinished, else a new session and its run |
| PatSession.Engine.RunFirstSegment | backend/integrations/winlink/pat_session.py:137-147 | The unguarded CONNECTED write: end times stay in step with the terminal states exactly when the session was not aborted before; single flight is kept |
| PatSession.Engine.RunWindUp | backend/integrations/winlink/pat_session.py:151-200 | The tail of a run: the unguarded FAILED writes, the guarded completion with its reconcile, the clean-up |
| PatSession.Engine.BreakSyncing | backend/integrations/winlink/pat_session.py:176-200 | A failure after SYNCING was written leaves it |
| PatSession.Engine.ConsumeFrame | backend/integrations/winlink/pat_session.py:60-79 | A frame is appended; link-up turns CONNECTED into SYNCING and nothing else |
| PatSession.Engine.FinishAbort | backend/integrations/winlink/pat_session.py:202-211 | ABORTED is written unless COMPLETED or FAILED is there |
| PatSession.Engine.ShutdownBegins | backend/integrations/winlink/pat_session.py:213-218 | A shutdown cancels and waits for the run it sees |
| CheckInLaws.OnePerCallsign | backend/modules/checkins/service.py:365-459 | One batch leaves exactly one new check-in per callsign it brings, made from that callsign's latest message; check-ins of earlier batches stay as they were |
| CheckInLaws.ImportExactly | backend/modules/checkins/service.py:365-459 | The whole check-in table after an import: the old rows, and one row in order of reception for each new message no later one with its callsign supersedes; messages without a callsign all keep theirs |
| CheckInLaws.LatestIs | backend/modules/checkins/service.py:407-452 | The latest message is the maximum by reception time and, among equals, by place in the batch |
| CheckInLaws.ClashExactly | backend/modules/checkins/service.py:382-439 | An import fails if and only if its batch brings some message id twice that was not stored before |
| CheckInLaws.LastIsLatest | backend/modules/checkins/service.py:407-452 | Keeping the last in the stably sorted batch keeps the latest of the batch as it came |
| CheckInPhases.TwoPhaseImport | backend/integrations/scanner/service.py:76-101 | Storing messages unparsed any number of times and importing them later gives the same check-ins, row numbers and result as importing directly, the same parsed rows, and leaves the others unparsed |
| CheckInPhases.ImportAhead | backend/modules/checkins/service.py:382-447 | An import commutes with rows stored ahead of it |
| CheckInPhases.RescanChangesNothing | backend/modules/checkins/service.py:388-405 | Scanning imported messages again, into any session, changes nothing and imports nothing |
| CheckInPhases.ImportedAreDone | backend/modules/checkins/service.py:388-447 | Every message of an imported batch is marked parsed, also those whose check-in was superseded |
| CheckInRows.ImportedRowsSay | backend/modules/checkins/service.py:271-277 | Every row an import adds is of one message of the batch not imported before: in the scan's session, under its id, as its stored text reads, timed by its reception, and new if and only if it has a callsign and the net is known and does not know it |
| CheckInRows.TimingExactly | backend/modules/checkins/service.py:110-139 | A message is ON_TIME exactly within the session, EARLY before and LATE after it when it does not end before it starts; otherwise one in between is LATE exactly within the grace period after the end alone |
| CheckInRows.StoreLeaves | backend/integrations/scanner/service.py:76-101 | Storing a batch leaves all of it stored, new messages unparsed and as they came, unless one new id comes twice, when nothing is stored |
| CheckInRows.TablesStay | backend/modules/checkins/service.py:365-459 | Over any run of scans, failed ones included, raw rows stay under their own ids and a message once imported stays imported |
| CheckInPhases.RepeatedIdNeedsTwoPhases | backend/modules/checkins/service.py:417-439 | A batch bringing one new message twice fails when imported directly and succeeds when stored beforehand |
| CheckInPhases.GraceMattersExactly | backend/modules/checkins/service.py:110-139 | The grace period makes a difference to some message's timing if and only if the session ends more than two ticks before it starts; otherwise timing is before, within or after |
| CheckInImport.Importer.ScanAndImport | backend/modules/checkins/service.py:365-459 | The import loop with its commit after every message: reuse of waiting rows, unique ids, the superseded check-in whose deletion the next commit writes and a failure rolls back |
| CheckInImport.Importer.PersistRaw | backend/integrations/scanner/service.py:76-101 | The storing loop as one transaction: unseen ids stored unparsed, nothing at all when an id comes twice |
| FinalisationLaws.MemberTotals | backend/modules/checkins/service.py:599-654 | Conservation: under any interleaving of approvals, roster approvals, submissions, retries, skips, redrafts, deletions and check-in edits, a callsign is a member of a net exactly when some finalised session of the net had a check-in of it, and its total is the number of its check-ins summed over those sessions as they were when first finalised |
| FinalisationLaws.EachSessionOnce | backend/modules/checkins/service.py:613-618 | Every finalised session is counted once, in the state just before the operation that first finalised it |
| FinalisationLaws.MemberRecords | backend/modules/checkins/service.py:624-645 | Every member record is the one its net's finalisations amount to |
| FinalisationLaws.ExpectedDates | backend/modules/checkins/service.py:632-645 | A member's first and last dates are those of the first and last finalisation that counted it |
| FinalisationLaws.MembersChange | backend/modules/checkins/service.py:599-654 | Members change only together with a session's first finalisation, whichever operation brings it about |
| FinalisationLaws.CreditedLooksUp | backend/modules/checkins/service.py:624-645 | Crediting check-in by check-in adds for each callsign the number of its check-ins |
| FinalisationLaws.ApprovedRostersAreFinalized | backend/modules/roster/service.py:516-613 | In every reachable state a roster that is approved or sent, or has been since it was last drafted, has a finalised session, sent_at is set exactly on SENT rosters, and a session has one roster |
| FinalisationLaws.OnceApprovedIsFinalized | backend/modules/roster/service.py:312-757 | A session whose roster is approved or sent at any point of a run is finalised then and ever after, with the same time, whatever becomes of the roster: skipped, drafted anew, sent again or deleted |
| FinalisationEffects.ApprovalsAndDeliveriesHappened | backend/modules/roster/service.py:312-659 | In every reachable state whoever a roster says approved it did so, at the time it says, while it was a draft, and when it says it was sent some backend took it |
| FinalisationEffects.CheckInsAreLastGiven | backend/modules/checkins/service.py:599-654 | In every reachable state the check-ins to be counted are those added and not removed since, each under the callsign last given to it |
| FinalisationEffects.StatusesAreLastGiven | backend/modules/checkins/service.py:599-654 | In every reachable state a session has the net it was created in and the status last given to it, COMPLETED by its own approval or its roster's |
| FinalisationEffects.RosterApproved | backend/modules/roster/service.py:516-535 | Exactly drafts are approved, by that operator, now, their session being finalised and completed; nothing else changes |
| FinalisationEffects.RosterSent | backend/modules/roster/service.py:538-572 | Exactly approved rosters that some backend takes are sent, now, keeping who approved them |
| FinalisationEffects.RosterSubmitted | backend/modules/roster/service.py:575-613 | A submitted draft is approved whatever happens, and sent when some backend takes it; an approved roster is sent in the same way |
| FinalisationEffects.RosterResent | backend/modules/roster/service.py:616-659 | Exactly sent rosters that some backend takes again have their time renewed |
| FinalisationEffects.RosterSkipped | backend/modules/roster/service.py:662-672 | Exactly drafts and approved rosters are skipped, keeping who approved them |
| FinalisationEffects.RosterDrafted | backend/modules/roster/service.py:312-382 | Drafting leaves the session the roster it had when that was not skipped, and otherwise a draft nobody approved or sent, in place of a skipped one |
| FinalisationEffects.RosterDeleted | backend/modules/roster/service.py:675-688 | Any roster there is can be deleted, and no other goes with it |
| FinalisationLaws.ApplyKeeps | backend/modules/roster/service.py:312-757 | Every operation keeps the tables consistent and never drops a session or the time it was finalised |
| Finalisation.Book.ApproveSessionCheckIns | backend/modules/checkins/service.py:599-654 | The crediting loop over the session's check-ins, once per session |
| Finalisation.Book.GenerateDraft | backend/modules/roster/service.py:312-382 | The one roster of a session is kept, drafted anew in place when skipped, or created |
| Finalisation.Book.FirstRoster | backend/modules/roster/service.py:321-323 | The search for the session's roster |
| Finalisation.Book.ApproveRoster | backend/modules/roster/service.py:516-535 | DRAFT only; the session is finalised first |
| Finalisation.Book.MarkSent | backend/modules/roster/service.py:538-572 | APPROVED only; stays APPROVED when no backend took it |
| Finalisation.Book.SubmitRoster | backend/modules/roster/service.py:575-613 | Approval and sending in one, or sending alone as a retry |
| Finalisation.Book.ResendRoster | backend/modules/roster/service.py:616-659 | SENT stays SENT; the time changes only on success |
| Finalisation.Book.SkipRoster | backend/modules/roster/service.py:662-672 | DRAFT and APPROVED rosters only |
| RosterReading.TextTellsTable | backend/modules/roster/service.py:451-483 | The text alone tells the table: two tables of check-ins without line breaks, none of whose rows after the first reads as a comment line, have the same text only if they say the same of the same check-ins |
| RosterReading.ConfusableHasTwin | backend/modules/roster/service.py:471-482 | A row anywhere in a table that reads as a comment line, has no comment, stands below a row without one and does not set a column's width alone has a twin: the table without it, the row above commented, has one check-in less and exactly the same text |
| RosterReading.HeadingsRead | backend/modules/roster/service.py:448-476 | The first line of a table read at its columns gives the six headings |
| RosterReading.DashesTellWidths | backend/modules/roster/service.py:475-478 | The line of dashes tells every column's width |
| RosterReading.TableReadsBackExactly | backend/modules/roster/service.py:451-483 | Slicing each line at the computed widths, and taking lines below the first row that start with four spaces for comments, gives every check-in back with its marker, cells and comment if and only if no row after the first reads as a comment line |
| RosterReading.ConfusableExactly | backend/modules/roster/service.py:471-482 | A row reads as a comment line if and only if it is not a new member's, its name is missing or starts with blanks, and some cell is not blank |
| RosterReading.TableLines | backend/modules/roster/service.py:475-483 | Splitting the text gives exactly the lines it was joined from |
| RosterTable.CellRecovered | backend/modules/roster/service.py:466-473 | Slicing a row line at the offsets of the computed widths gives every cell back but for blanks at its end; a cell without them comes back exactly |
| RosterTable.MarkerRecovered | backend/modules/roster/service.py:471-480 | A row line starts with a star exactly for new members |
| RosterTable.FormatRosterTable | backend/modules/roster/service.py:451-483 | The line-building loop: header, dashes, a row per check-in and its comment below it |
| RosterTable.MeasureColumns | backend/modules/roster/service.py:466-469 | Each column is as wide as its header and its widest cell |

## Left out

- B2f.ParseMessage: does not model digits outside ASCII and integers of more than 4300 digits in `int()`, nor the content type guessed for an attachment, which nothing else depends on.
- B2f.Build: text with lone surrogates, which `encode` refuses, is not representable.
- RateLimit.Limiter.Consume: floats are reals; the client address is a parameter, so reading forwarded headers is not modelled.
- RateLimitSweep.SweepInvisibleExactly: stated for whole positive capacities, the only ones the routes use.
- RateLimitLaws.AdmissionExact: for routes that refill within the TTL, as every route of the program does (in 60 seconds); AdmissionExactlyWhenRefilled shows it is false of others.
- FetchCache.Cache.FinishGet: the fetch itself, over the network, is a parameter.
- AprsStore.EventPositionStore.AddPoint: a station is a value in its pool, so two names for one Station object are not modelled.
- ObjectNames.FindObjectName: the post's name arrives in upper case; case mapping is not modelled.
- Beacon.Client.SendObjects: packets carry positions as they are; the text of latitudes, longitudes and comments is not modelled. Agreement is per connection, objects of an earlier connection being parameters.
- Beacon.Client.KillAll: the order of an iteration over `announced` is some order, not the dict's.
- AprsClient.RunConnection: one clock reading and one reading of the posts per pass; the login exchange, filters, received lines and the reconnect back-off are not modelled.
- EventStore.Store.CheckIn: callsigns arrive trimmed and in upper case and names and locations are not kept; one clock reading per transaction, but for closing, which has the two that matter to closed_at.
- EventStore.Store.UpdatePost: names arrive trimmed; descriptions and coordinates are not kept.
- EventStore.Store.RouteEventMessages: transactions are serialised, so the path that rolls back a message another scan routed at the same moment is not modelled; one clock reading for the whole pass.
- EventTimes.ReachableIsOrdered: for clocks that never step back, which `utcnow` does not promise; everything about times is stated there and in EventReport.ReportIsOrdered, and nothing else needs it.
- Deleting an event (`backend/modules/events/routes.py`): it removes the event with all its rows, and the laws are about events that are there.
- EventStore.Store.SetLogPinned: an entry is named by its sequence number instead of its row id.
- EventReport.ComputeReport: the participants' callsigns arrive in the order of the query; the names shown are not kept.
- Delivery.Log.Dispatch: what a backend replies is a parameter; configuration and message texts are not modelled.
- PatSession.Engine.RunWindUp: a failing write is a step that ends the run without it; the tail of a run has no suspension point and is one step; the mailbox scan inside it is its count.
- CheckInImport.Importer.ScanAndImport: what a message says is a parameter and the same each time; attachments, source paths, message types and the notification are not modelled, and the result is a map by callsign without its order.
- Finalisation.Book.ApproveSessionCheckIns: member names and the order of the query are not kept.
- Finalisation.Book.MarkSent: sending the roster of a session without a net, which the dispatcher refuses by an assertion, is a sending that no backend took.
- Finalisation.Book.GenerateDraft: templates and texts are a yes or no.
- RosterReading.TextTellsTable: for cells and comments without line breaks.
- Editing events, operators, visibility and tokens: fields with no invariant of their own.
- Reparsing a session, deleting a net or a season and anonymising a user: they rewrite or remove what the laws count.
- Choosing the session a scan imports into, scanning every net, and the scanner's status fields.
- HTTP routes, authentication, the database and the network: calls are transactions and failures are inputs.
