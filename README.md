# znhd-service relay, modelled in Dafny

The relay pushes notifications to a browser. A userscript (`znhd.user.js`)
runs in the browser, opens a WebSocket to a FastAPI server under its client
token and receives messages and images over it. Senders post to
`POST /message?token=<app token>`. The server resolves the app token to a
client token through a Redis store, then fans the message out to every socket
registered under that client token. Two servers are modelled: the current
one (`main.py`) and an older one (`other/main.back.py`).

The model covers these parts:
- the server's registry of live sockets;
- the administrator session cache;
- the token pair and its resolution, including the older server's fallback,
  which decodes the app token itself when the store misses;
- the POST /message outcome and the health counts;
- the CORS policy;
- the client-address precedence;
- on the browser side: the activity log, the speech queue, the receiver for
  framed image transfers, the reconnection counter, the image-text
  validators, the working-hours test, and the `btoa` post token.

Modules, one file each:
- `Common` (`common.dfy`): Option and Byte.
- `Text` (`text.dfy`): the two whitespace sets (JavaScript `trim`/`\s`, Python
  `strip`), trimming, removal, substring search, UTF-16 length and the first
  comma-separated field.
- `Utf8` (`utf8.dfy`): strict UTF-8 encoding and decoding of Unicode scalar
  values, with both round trips.
- `Base64` (`base64.dfy`): padded Base64 (section 4 of RFC 4648) with a strict
  decoder, both round trips and injectivity.
- `Registry` (`registry.dfy`): `ConnectionManager`, shared by both servers.
- `Sessions` (`sessions.dfy`): `active_sessions` with `verify_session`,
  `api_login` and `api_logout`.
- `Tokens` (`tokens.dfy`): the key-value store, `create_token_pair`,
  `get_client_token` and `token_exists` of the current server.
- `Cors` (`cors.dfy`): `is_origin_allowed` and the headers it chooses.
- `Server` (`server.dfy`): POST /message and GET /health of the current
  server, and `get_client_ip`.
- `ServerBack` (`server_back.dfy`): the older server's `get_client_token`
  with its decoding fallback, and its POST /message.
- `ActivityLog`, `SpeechQueue`, `BinaryReceiver`, `Reconnect`, `Validators`
  and `ClientToken`: the userscript parts.

Each piece of mutable state is a class:
- `ConnectionManager`, `SessionCache` and `KvStore` on the server;
- `Log`, `Speaker`, `Receiver` and `Reconnector` in the browser script.

Each class's methods are proved against a pure function of the old state.
The properties are lemmas about those functions.

Modelling choices:
- A socket send, a store ping and the building of a WebSocket address are
  boolean oracles or parameters.
- The clock is an integer number of seconds, supplied by the caller.
- `redis_client` being None is a null `KvStore?`.

How the two servers resolve an app token:
- The current server asks the store alone (main.py:299-305). That is
  `Tokens.GetClientToken`, which `Server.PostMessage` uses.
- On a store miss, the older server decodes the app token itself and writes
  the pair back (other/main.back.py:245-268). `ServerBack` models this as
  written.

## Model

| member | source | states |
|---|---|---|
| Registry.Added | main.py:100-106 | connecting puts the socket in the token's set, creating the set when absent; every other token keeps its set |
| Registry.RemovedAll | main.py:108-113 | removing sockets leaves exactly the old set minus them, drops the token once its set is empty, and leaves other tokens alone |
| Registry.Removed | main.py:108-113 | after a disconnect the socket is no longer registered under its token, no token is added, and every other token keeps its set |
| Registry.Failed | main.py:115-124 | the sockets collected as failed are exactly the token's sockets whose send fails; none for an unknown token |
| Registry.CollectFailed | main.py:118-124 | the send loop tries every socket once and collects exactly those whose send fails, without changing the set |
| Registry.NoEmptySetsKept | main.py:108-113 | connecting and disconnecting keep the registry free of empty sets |
| Registry.RemovedNone | main.py:125-127 | a send where nothing failed leaves the registry unchanged |
| Registry.RemovedOneMore | main.py:125-127 | disconnecting the failed sockets one by one equals removing them together |
| Registry.RemovedAbsent | other/main.back.py:135-141 | disconnecting an absent socket or token is a no-op |
| Registry.ConnectThenDisconnect | main.py:100-113 | connecting a new socket and disconnecting it restores the registry, so an emptied token is deleted |
| Registry.SiblingsSurvive | other/main.back.py:145-160 | after a fan-out a socket stays registered exactly when its own send succeeded, and other tokens are untouched |
| Registry.SizeSum | main.py:676 | the total is zero for an empty registry, and positive for a non-empty one without empty sets |
| Registry.TotalAtLeastClients | other/main.back.py:403-405 | with no empty sets there are at least as many sockets as tokens |
| Registry.TotalAfterConnect | other/main.back.py:403-405 | connecting a socket not yet registered adds one to the total |
| Registry.TotalAfterRemove | other/main.back.py:403-405 | removing sockets lowers the total by the number of them registered under the token |
| Registry.ConnectionManager.constructor | main.py:97-98 | the registry starts empty |
| Registry.ConnectionManager.Connect | main.py:100-106 | an accepted socket joins its token's set, while a failed accept changes nothing; the registry stays free of empty sets |
| Registry.ConnectionManager.Disconnect | main.py:108-113 | the socket leaves its set and an emptied set is deleted |
| Registry.ConnectionManager.DisconnectAll | main.py:125-127 | the cleanup loop removes exactly the collected sockets |
| Registry.ConnectionManager.SendMessage | main.py:115-127 | returns the sockets whose send failed and removes exactly those, only after the send loop; does nothing for a token with no entry |
| Sessions.AdminPassword | main.py:31 | the administrator password is the environment's value, or `admin123` when it is unset |
| Sessions.AfterVerify | main.py:151-158 | checking a ticket evicts it only when it was presented, is stored and has expired; no other entry changes |
| Sessions.Live | main.py:151-158 | a presented ticket is accepted exactly when it is still cached after the check's eviction |
| Sessions.AfterLogout | main.py:747-753 | logging out deletes the presented ticket and nothing else |
| Sessions.IssuedTicketLifetime | main.py:717-720 | a ticket stored at login is accepted exactly until 24 hours later, and a check after that evicts it |
| Sessions.VerifyKeepsAccepted | main.py:151-158 | accepting a ticket leaves its expiry, and the whole cache, unchanged |
| Sessions.RefusedStaysRefused | main.py:151-158 | a refused ticket stays refused at every later time |
| Sessions.VerifyIdempotent | main.py:151-158 | checking twice at the same time gives the same answer and changes nothing more |
| Sessions.LogoutRevokes | main.py:747-753 | after logout the ticket is refused at any time, and other tickets keep their expiry |
| Sessions.SessionCache.constructor | main.py:31 | the cache starts empty and holds the configured password |
| Sessions.SessionCache.Verify | main.py:151-158 | a missing, empty, unknown or expired ticket is refused, and an expired one is deleted; a live ticket is accepted and nothing changes |
| Sessions.SessionCache.Login | main.py:714-736 | the right password stores the new ticket with expiry now + 86400 seconds; a wrong one stores nothing |
| Sessions.SessionCache.Logout | main.py:747-753 | deletes the presented ticket if it is stored, and otherwise does nothing |
| Tokens.KeysDistinct | main.py:291-292 | `client:` and `app:` keys never collide, and each key family is injective |
| Tokens.AppToken | main.py:273 | the app token is a whole number of Base64 groups, and empty exactly for the empty client token |
| Tokens.Issue | main.py:291-292 | issuing writes exactly two keys, the `client:` record holding the app token and time and the `app:` key holding the client token; every other key keeps its value |
| Tokens.AppTokenInjective | main.py:273 | two client tokens never share an app token |
| Tokens.Lookup | main.py:299-305 | a store answer is a non-empty client token stored under the `app:` key; otherwise there is no answer |
| Tokens.IssueResolves | main.py:270-313 | after a pair is issued, its app token resolves back to the client token, and the client token exists |
| Tokens.IssueKeepsOthers | main.py:291-292 | issuing one pair leaves every other app token's resolution and every other client's record as they were |
| Tokens.IssueTwoResolves | main.py:270-305 | a second client's pair does not disturb the first one's resolution |
| Tokens.KvStore.constructor | main.py:291-292 | the store starts empty |
| Tokens.KvStore.Get | main.py:302 | reading returns the stored value, or nothing |
| Tokens.KvStore.Set | main.py:291-292 | writing replaces exactly one key |
| Tokens.KvStore.Exists | main.py:311 | exists answers whether the key is stored |
| Tokens.CreateTokenPair | main.py:270-296 | the app token is the padded Base64 of the client token's UTF-8 bytes, and with a store both keys are written as `Issue` says |
| Tokens.GetClientToken | main.py:299-305 | only the store answers: no store, or a miss, gives nothing, and there is no decoding fallback |
| Tokens.TokenExists | main.py:308-313 | true exactly when a store is present and holds the client record |
| Cors.MatchCore | main.py:43-46 | a `$` anchor also matches before one final newline |
| Cors.HttpsUnderComplete | main.py:43-44 | every `https://<anything without newline><suffix>` origin matches its https pattern |
| Cors.HttpsUnderSound | main.py:43-44 | only such origins match an https pattern |
| Cors.AnyMatches | main.py:52-54 | the scan is true exactly when some pattern matches |
| Cors.IsOriginAllowed | main.py:49-55 | an empty origin is allowed, and otherwise an origin is allowed exactly when one of the four patterns matches |
| Cors.AllowOrigin | main.py:77-80 | `Access-Control-Allow-Origin` is the origin itself when it is non-empty and matches, and `*` otherwise |
| Cors.EchoOnlyAllowed | other/main.back.py:73-76 | a browser sees its own origin echoed back only when that origin is allowed |
| Cors.CorsHeaders | main.py:61-84 | every response carries the allow-origin, methods, headers and credentials headers; a preflight adds a 600-second max age, any other response exposes all headers |
| Cors.PreflightAgrees | other/main.back.py:71-99 | preflight and ordinary responses agree on every header they share |
| Cors.HeaderNamesDistinct | main.py:61-84 | no header name overwrites another |
| Server.UnknownTokenRefused | main.py:620-621 | an app token that does not resolve gives a 400 and changes nothing |
| Server.NoEntryNothingSent | main.py:633-644 | a resolved token with no registry entry answers `no_connection` with 0 connections, and nothing is sent |
| Server.DeliveredCountsSuccesses | main.py:647-659 | a delivered message reports exactly the number of sockets whose send succeeded, and the failed ones are dropped |
| Server.PostKeepsNoEmptySets | main.py:612-659 | POST /message keeps the registry free of empty sets |
| Server.PostOutcome | main.py:612-659 | a 400 exactly for a missing or empty client token; otherwise the answer names the resolved token, and it is `no_connection` exactly when that token has no sockets; only a delivery changes the registry, which then gains no token and keeps every other client's sockets |
| Server.PostMessage | main.py:612-659 | the store-only lookup resolves the token, and the answer and the registry afterwards are those of `PostOutcome` |
| Server.Deliver | other/main.back.py:347-386 | the delivery after resolution, shared by both servers, gives the outcome `PostOutcome` describes |
| Server.HealthCountsConsistent | main.py:662-677 | `total_connections` is at least `active_clients`, and zero exactly when there are no clients |
| Server.HealthCheck | main.py:662-677 | `active_clients` is the number of registry tokens and `total_connections` is `Registry.SizeSum` (the same whichever token is summed first, by `Registry.SizeSumRemove`); `redis` is `connected` or `disconnected`, the latter exactly when a store is configured and its ping fails; an empty registry reports no clients and no connections |
| Server.HealthAfterConnect | other/main.back.py:403-405 | a new socket adds one connection, and one client when its token is new |
| Server.ForwardedWins | main.py:225-227 | a non-empty `X-Forwarded-For` decides: the address is its stripped first entry, a comma-free piece of the header |
| Server.FallbackOrder | main.py:229-237 | without it, `X-Real-IP` is used as it is, then the peer's host, then `unknown` |
| Server.ClientIp | main.py:222-237 | an address taken from `X-Forwarded-For` holds no comma and no whitespace at its ends; an empty address arises only from a blank first hop or an empty peer host |
| Server.IsLocalAddress | main.py:242 | `unknown` is local, and an address whose first character is not `1`, `:` or `u` is never local |
| Server.NoAddressIsLocal | main.py:237-242 | a request naming no address counts as local for the geolocation short-circuit |
| ServerBack.FallbackOfIssued | other/main.back.py:227-255 | decoding an issued app token gives back its client token |
| ServerBack.FallbackDecode | other/main.back.py:255 | whatever decodes is the app token of the client token it decodes to |
| ServerBack.Resolve | other/main.back.py:245-268 | there is no answer only when decoding fails; an answer is the store's, or a client token whose app token is the one given |
| ServerBack.Repaired | other/main.back.py:247-265 | resolving never deletes a key, and a store hit writes nothing |
| ServerBack.SameIdentityEitherWay | other/main.back.py:245-268 | for an issued pair, the store and the fallback name the same client token, even after the store lost the pair |
| ServerBack.RepairThenHit | other/main.back.py:255-263 | a miss that decodes writes the pair as if issued, so the next lookup hits |
| ServerBack.UndecodableMiss | other/main.back.py:264-268 | a token that neither the store nor the decoder understands resolves to nothing and writes nothing |
| ServerBack.GetClientTokenWithFallback | other/main.back.py:245-268 | a store hit is returned; on a miss the decoded token is returned and its pair written, and an undecodable token gives nothing and writes nothing |
| ServerBack.PostMessage | other/main.back.py:337-386 | POST /message of the older server is the fallback resolution followed by the shared delivery |
| ActivityLog.Prepend | znhd.user.js:60-65 | the new entry goes first and the list grows by one up to 10, dropping the oldest beyond that |
| ActivityLog.AddLog | znhd.user.js:42-66 | afterwards the message is remembered as the last one, also when it was dropped as a repeat; the list stays within ten entries, is untouched while the panel is unmounted, and is otherwise either unchanged or headed by the new entry |
| ActivityLog.Mount | znhd.user.js:145-146 | mounting from any state gives a consistent, mounted, empty log that still remembers the last message |
| ActivityLog.Unmount | znhd.user.js:147-149 | unmounting from any state gives a consistent, empty log without a panel that still remembers the last message |
| ActivityLog.InitialInv | znhd.user.js:37-39 | the initial log satisfies the invariant |
| ActivityLog.AddLogKeepsInv | znhd.user.js:42-66 | the list stays at most 10 long and newest first, in step with `lastLogMessage`, with no repeated neighbours |
| ActivityLog.AcceptedGoesFirst | znhd.user.js:54-65 | an accepted message goes in front of the old entries, which keep their order |
| ActivityLog.RepeatDropped | znhd.user.js:47-54 | the same non-empty message twice in a row is listed once |
| ActivityLog.Log.constructor | znhd.user.js:37-39 | the log starts empty, with no last message and no panel |
| ActivityLog.Log.Add | znhd.user.js:42-66 | `addLog` behaves as `AddLog` and keeps the invariant |
| ActivityLog.Log.OnMount | znhd.user.js:145-146 | mounting the panel starts an empty list and keeps the invariant |
| ActivityLog.Log.OnUnmount | znhd.user.js:147-149 | unmounting clears the list and keeps the invariant |
| SpeechQueue.Process | znhd.user.js:936-940 | processing never changes what was requested, hands at most one text to the engine, keeps what was spoken, and leaves nothing waiting unless the engine is busy |
| SpeechQueue.Speak | znhd.user.js:919-933 | `speak` hands at most one text to the engine and keeps what was spoken; a text it accepts leaves the engine busy |
| SpeechQueue.OnEnd | znhd.user.js:942-945 | after an end at most one text goes to the engine, the engine is busy exactly when a text was waiting, and nothing waits while it is idle |
| SpeechQueue.OnError | znhd.user.js:947-955 | after a failure at most one text goes to the engine and nothing waits while it is idle; `not-allowed` leaves it idle with nothing waiting and nothing new spoken |
| SpeechQueue.InitialInv | znhd.user.js:916-917 | the initial queue satisfies the invariant |
| SpeechQueue.ProcessKeepsFifo | znhd.user.js:936-940 | texts leave the queue from the front, in the order they were accepted |
| SpeechQueue.EventsKeepInv | znhd.user.js:919-962 | every event keeps FIFO order, and texts wait only while one is being spoken |
| SpeechQueue.DisabledSpeaksNothing | znhd.user.js:924 | with voice off, `speak` does nothing |
| SpeechQueue.SpeakWhenIdleOrBusy | znhd.user.js:919-940 | a text spoken while idle goes straight to the engine; while busy it waits at the back |
| SpeechQueue.EndAdvances | znhd.user.js:942-955 | an end, or a failure other than `not-allowed`, starts the oldest waiting text; `not-allowed` empties the queue |
| SpeechQueue.SpokenInOrder | znhd.user.js:936-962 | without discards, what was spoken followed by what waits is exactly what was accepted |
| SpeechQueue.Speaker.constructor | znhd.user.js:916-917 | the queue starts empty and idle |
| SpeechQueue.Speaker.ProcessQueue | znhd.user.js:936-962 | `processSpeechQueue` behaves as `Process` |
| SpeechQueue.Speaker.Say | znhd.user.js:919-932 | `speak` behaves as `Speak` |
| SpeechQueue.Speaker.Ended | znhd.user.js:942-945 | `onend` behaves as `OnEnd` |
| SpeechQueue.Speaker.Failed | znhd.user.js:947-955 | `onerror` behaves as `OnError` |
| BinaryReceiver.Join | znhd.user.js:1199-1200 | the joined image is as long as all the chunks together |
| BinaryReceiver.Step | znhd.user.js:1158-1245 | a completion closes an active transfer and hands over as many bytes as were collected; a chunk extends the active transfer by exactly that chunk; a start opens an empty transfer; every other frame leaves the transfer as it was |
| BinaryReceiver.StepKeepsSize | znhd.user.js:1161-1171 | every frame keeps `receivedSize` equal to the size of the collected chunks |
| BinaryReceiver.StartOpensEmpty | znhd.user.js:1179-1191 | `binary_start` for an image opens a fresh, empty transfer, and the content type defaults to `image/jpeg` |
| BinaryReceiver.StrayChunkIgnored | znhd.user.js:1161-1171 | a chunk with no transfer active is ignored |
| BinaryReceiver.ChunksCollected | znhd.user.js:1161-1171 | a run of chunks is collected completely and in arrival order |
| BinaryReceiver.CollectConsistent | znhd.user.js:1161-1171 | collecting keeps the size consistent, and the joined image extends the old one |
| BinaryReceiver.RunAppend | znhd.user.js:1158 | running one more frame after a run is one more step |
| BinaryReceiver.EndCompletes | znhd.user.js:1194-1221 | the matching `binary_end` hands over the joined chunks, or the "no data" warning, and clears the transfer |
| BinaryReceiver.WholeTransfer | znhd.user.js:1179-1221 | a start, its chunks and its end deliver the chunks joined in order under the announced type, and leave no transfer active |
| BinaryReceiver.OtherEndIgnored | znhd.user.js:1194 | a `binary_end` for another transfer completes nothing and keeps the active transfer |
| BinaryReceiver.TextFrames | znhd.user.js:1224-1241 | a text frame keeps the transfer; a Base64 image text goes to the clipboard, any other non-empty text is a message |
| BinaryReceiver.Receiver.constructor | znhd.user.js:1156 | no transfer is active at first |
| BinaryReceiver.Receiver.OnMessage | znhd.user.js:1158-1241 | `onmessage` behaves as `Step` and keeps the size consistent |
| Reconnect.Connect | znhd.user.js:1110-1149 | connecting clears any stored timer and never touches the counter |
| Reconnect.OnError | znhd.user.js:1246-1258 | `onerror` drops the socket and counts at most one attempt, never beyond the maximum |
| Reconnect.OnClose | znhd.user.js:1259-1272 | `onclose` drops the socket and counts at most one attempt, never beyond the maximum |
| Reconnect.Fire | znhd.user.js:1268 | a fired timer leaves the counter alone and clears the stored timer |
| Reconnect.Stop | znhd.user.js:1277-1306 | disabling, or a missing URL or token, returns the globals to their starting values |
| Reconnect.Init | znhd.user.js:1276-1311 | setting up keeps the invariant, and a configured set-up enables reconnecting for that configuration |
| Reconnect.InitialInv | znhd.user.js:987-993 | the initial globals satisfy the invariant |
| Reconnect.EventsKeepInv | znhd.user.js:1246-1311 | every event keeps the counter at most 10, and keeps a live socket only while reconnecting is enabled |
| Reconnect.ErrorCountsOne | znhd.user.js:1246-1257 | `onerror` schedules exactly when enabled, no timer is stored and attempts remain, and then counts one attempt; otherwise the counter stays |
| Reconnect.CloseCountsOne | znhd.user.js:1259-1272 | `onclose` schedules and counts one attempt when enabled and attempts remain; otherwise the counter stays |
| Reconnect.ExhaustedStaysExhausted | znhd.user.js:1251-1271 | at 10 attempts nothing more is scheduled and the counter stays at 10 |
| Reconnect.InitResets | znhd.user.js:1276-1311 | setting up or disabling resets the counter to 0 and leaves nothing scheduled |
| Reconnect.ErrorThenCloseCountsTwo | znhd.user.js:1246-1272 | a failing socket reports `onerror` and then `onclose`, so it uses two attempts |
| Reconnect.SameConfigKept | znhd.user.js:1126-1130 | connecting while a socket for the same URL and token is connecting or open keeps everything but the stored timer |
| Reconnect.NewConfigOpens | znhd.user.js:1126-1149 | otherwise, with a URL and a token, reconnecting is enabled for that configuration and the socket is live exactly when its address could be built |
| Reconnect.FireReconnects | znhd.user.js:1110-1149 | a fired reconnection with a usable address opens a live socket for its configuration |
| Reconnect.MissingConfigDisables | znhd.user.js:1115-1124 | connecting without a URL or token disables reconnecting, so no later event schedules anything |
| Reconnect.Reconnector.constructor | znhd.user.js:987-993 | the globals start cleared |
| Reconnect.Reconnector.ConnectSocket | znhd.user.js:1110-1149 | `connectwebhookWebSocket` behaves as `Connect` |
| Reconnect.Reconnector.HandleError | znhd.user.js:1246-1257 | `onerror` behaves as `OnError` |
| Reconnect.Reconnector.HandleClose | znhd.user.js:1259-1272 | `onclose` behaves as `OnClose` |
| Reconnect.Reconnector.FireTimer | znhd.user.js:1268 | the timer's callback behaves as `Fire` |
| Reconnect.Reconnector.Setup | znhd.user.js:1276-1311 | `initwebhookCatDevice` behaves as `Init` |
| Validators.IsBase64ImageString | znhd.user.js:1026-1033 | a non-string is refused, and an accepted text trims to at least 11 characters; the full decision is `ValidatorCases` |
| Validators.BuildDataUrlFromBase64 | znhd.user.js:1035-1038 | the result starts with `data:image/` and ends with the input text |
| Validators.IsWorkingHours | znhd.user.js:731-741 | it holds only between 9 and 18 o'clock and is false from 12:01 to 12:59; the window in minutes is `WorkingHoursInMinutes` |
| Validators.Unpadded | znhd.user.js:1032 | dropping the `={0,2}` tail removes at most two characters from the end |
| Validators.ShapeChars | znhd.user.js:1032 | a string of the accepted shape holds only alphabet characters and `=` |
| Validators.ValidatorCases | znhd.user.js:1026-1033 | a non-string is refused; a trimmed `data:image/` text with `;base64,` is accepted; anything else is accepted exactly when it is at least 100 long and has the Base64 shape once whitespace is removed |
| Validators.EncodeLength | znhd.user.js:1030 | a padded encoding has four characters per started group of three bytes |
| Validators.EncodeHasShape | znhd.user.js:1032 | every non-empty padded encoding has the shape the validator checks |
| Validators.ShapeNoSpace | znhd.user.js:1029-1031 | a shaped string survives trimming and whitespace removal, and its JavaScript length is its length |
| Validators.ShapedAcceptedByLength | znhd.user.js:1029-1032 | a text of the Base64 shape is accepted exactly when it is at least 100 characters long |
| Validators.EncodedImageRecognised | znhd.user.js:1026-1033 | the encoding of an image is accepted exactly when the image has 73 bytes or more, the threshold of the `length < 100` test |
| Validators.DataUrlShape | znhd.user.js:1035-1038 | building twice changes nothing, and any text without the `data:image/` prefix is wrapped as a PNG data URL |
| Validators.DataPrefixNotShaped | znhd.user.js:1029-1032 | a `data:image/` text never has the Base64 shape |
| Validators.WrappedIsDataUrl | znhd.user.js:1037 | a wrapped text is a marked data URL with no whitespace at its ends |
| Validators.MarkedAccepted | znhd.user.js:1028-1029 | a text whose trimmed form is a marked data URL is accepted |
| Validators.AcceptedDataUrlMarked | znhd.user.js:1029-1032 | an accepted `data:image/` text carries `;base64,` |
| Validators.TrimmedStaysAccepted | znhd.user.js:1035-1038 | a trimmed text that is marked whenever it has the data prefix is accepted once wrapped |
| Validators.DataUrlStaysAccepted | znhd.user.js:1066 | a text the validator accepts still passes once trimmed and wrapped, as the clipboard path does |
| Validators.WorkingHoursInMinutes | znhd.user.js:731-741 | it is working hours exactly when the minute of the day is in [540, 720] or [810, 1080] |
| ClientToken.Latin1 | znhd.user.js:217 | one byte per character, of the same value |
| ClientToken.Btoa | znhd.user.js:217 | `btoa` succeeds exactly when every character fits in one byte |
| ClientToken.BtoaDecodes | znhd.user.js:217 | the post token decodes to the fingerprint's bytes |
| ClientToken.AsciiUtf8IsLatin1 | znhd.user.js:217 | on ASCII text the UTF-8 bytes are the one-byte-per-character bytes |
| ClientToken.PostTokenIsAppToken | znhd.user.js:184-218 | for an ASCII fingerprint the script's post token equals the server's app token, and the server resolves it back to the fingerprint |
| ClientToken.NonAsciiDiffers | znhd.user.js:217 | beyond ASCII the two differ: "é" gives "6Q==" against "w6k=" |
| Base64.ValueOf | main.py:273 | decoding one character of the alphabet gives a value below 64 |
| Base64.ValueOfDigit | main.py:273 | each six-bit value's character decodes back to that value |
| Base64.DigitOfValue | other/main.back.py:255 | each alphabet character is the character of its value |
| Base64.Encode | main.py:273 | the encoding is a whole number of four-character groups, empty exactly for no bytes |
| Base64.DecodeEncode | other/main.back.py:227-255 | decoding an encoding gives back the bytes |
| Base64.Decode | other/main.back.py:255 | a decodable text has a multiple of four characters, and gives three bytes per group less at most two for padding |
| Base64.EncodeDecode | other/main.back.py:255 | whatever decodes is the encoding of what it decodes to |
| Base64.EncodeInjective | main.py:273 | different bytes never share an encoding |
| Utf8.EncodeChar | main.py:273 | a character is encoded in one to four bytes, and in one exactly when it is ASCII |
| Utf8.Encode | main.py:273 | the encoding has at least one byte per character |
| Utf8.DecodeChar | other/main.back.py:255 | a decoded character consumes one to four bytes |
| Utf8.Decode | other/main.back.py:255 | each decoded character takes one to four bytes |
| Utf8.DecodeCharOfEncoded | other/main.back.py:255 | decoding the start of a character's encoding gives the character back |
| Utf8.DecodeEncode | other/main.back.py:227-255 | decoding an encoded string gives the string back |
| Utf8.EncodeCharOfDecoded | other/main.back.py:255 | re-encoding a decoded character gives its bytes back |
| Utf8.Reencode | other/main.back.py:255 | re-encoding what some bytes decode to gives the bytes back |
| Utf8.EncodeDecode | other/main.back.py:255 | whatever decodes is the encoding of what it decodes to |
| Utf8.EncodeInjective | main.py:273 | different strings never share an encoding |
| Text.TrimmedPiece | znhd.user.js:1028 | trimming gives a piece of the text with no whitespace at its ends |
| Text.TrimBoth | znhd.user.js:1028 | trimming leaves no character of the class at either end, and changes nothing when there is none there |
| Text.TrimJs | znhd.user.js:1028 | `trim()` leaves no whitespace at either end, and a text without any there is returned as it is |
| Text.StripPy | main.py:227 | `strip()` leaves no Python whitespace at either end, and a text without any there is returned as it is |
| Text.StrippedFieldPiece | main.py:225-227 | the stripped first field is a comma-free piece of the header |
| Text.TrimIdempotent | znhd.user.js:1028 | trimming twice is trimming once |
| Text.RemoveAll | znhd.user.js:1031 | removal never lengthens the text and leaves no whitespace in it |
| Text.RemoveAllConcat | znhd.user.js:1031 | removing from a concatenation is concatenating the removals |
| Text.RemoveAllKeepsOthers | znhd.user.js:1031 | removing whitespace keeps every other character |
| Text.RemoveAllNoop | znhd.user.js:1031 | removing from a text without whitespace changes nothing |
| Text.Contains | znhd.user.js:1029 | `includes` is true exactly when the text has the needle at some position |
| Text.Utf16Length | znhd.user.js:1030 | the JavaScript length is between one and two units per character, and one per character when all lie in the Basic Multilingual Plane |
| Text.FirstField | main.py:226 | `split(",")[0]` is the prefix of the header up to its first comma, or all of it |

## Left out

- Async interleaving: every server handler and every browser event handler is one atomic step. The receiver's `await` before `binaryTransfer = null` (znhd.user.js:1199-1219), during which later frames could still reach the old transfer, is therefore not modelled.
- `websocket_endpoint` (main.py:341-385, other/main.back.py:296-335): the accept and receive loops and the token check at connect are I/O. Only its effect on the registry, `ConnectionManager.connect` and `disconnect`, is modelled.
- Base64: Python's `b64decode` silently discards characters outside the alphabet and accepts non-zero padding bits. The model decodes strictly and canonically, and treats anything else as a decoding failure.
- Cors: the regular expression `\d` also matches non-ASCII Unicode digits. The model accepts only ASCII digits in a port.
- `get_client_ip`: the model states only the header precedence of `get_client_ip`. The call at main.py:264 lacks `await`, so it passes a coroutine to the geolocation lookup; that call site is not modelled.
- The geolocation lookup, HTTP routing, inline HTML pages, cookies and dependency injection: these are glue and I/O. Only the local-address short-circuit of `get_ip_geolocation` (main.py:242) is modelled, by `Server.IsLocalAddress`.
- Redis internals, startup, shutdown and `weekly_cleanup`: the store is an abstract map with get, set and exists. Time-to-live values are not modelled, since no modelled operation depends on expiry in the store.
- The administrator Redis endpoints (main.py:759-873) and `/tokens/{client_token}`: these depend on Redis glob matching and on JSON rendering.
- The JSON encoding of the client record: it is the datatype `ClientRecord`. The creation time is a caller-supplied string.
- Sessions: the ticket `create_session_token` draws with `secrets.token_hex(32)` (main.py:148) is a parameter of `Login`; it is 64 hexadecimal characters and so never empty, which is why `Sessions.IssuedTicketLifetime` assumes a non-empty ticket. `api_auth_check` is a thin wrapper around `verify_session`.
- Tokens: a non-string value under an `app:` key cannot arise from the modelled writes. It is modelled as a miss.
- The DOM, CAT_UI panels, TinyMCE insertion, the clipboard, canvas conversion, `Audio`, FingerprintJS, localStorage, `GM_xmlhttpRequest` and `blobToBase64`: browser I/O. The copy and insert results are represented by the receiver's `Action`.
- Speech utterance properties (language, rate, volume): not modelled. The speech engine's completion arrives as the `Ended`/`Failed` events.
- Timers: the 3-second reconnection delay is not modelled. A scheduled reconnection runs when `Fire` is applied. Events from a socket that was already replaced are not modelled either.
- `URL`/`WebSocket` construction: whether the address can be built is the parameter `urlOk`. The socket's `readyState` (CONNECTING, OPEN, CLOSING, CLOSED) is abstracted to one `live` flag.
- `isWorkingHours`: `getHours() + getMinutes() / 60` is computed with exact reals rather than floating point. No minute value lies within float rounding of the bounds 9, 12, 13.5 and 18, so the answer is the same.
- JSON frames: non-string field values, and `JSON.parse` failures, are abstracted to `Option` fields and the `Malformed` frame.
- Logger and console output, and `toFixed` KB formatting: output only.
- Sub-second time: the session clock counts whole seconds; `datetime.now() > expiry` becomes an integer comparison, so a ticket is still accepted at its expiry second.
- Strings: they are sequences of Unicode scalar values. Lone surrogates of JavaScript strings are not represented, and `Text.Utf16Length` is the only UTF-16 notion.
