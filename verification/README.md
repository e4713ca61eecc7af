# duckdb-ext-common: a model and its proofs

A Dafny model of the logic that the extension contracts and the OpenID Connect client of duckdb-ext-common
rest on, and proofs of what their comments promise. `dafny verify dfyconfig.toml` checks all of it.

| file | what it models |
|---|---|
| `Delivery.dfy`, `DeliveryProofs.dfy` | the bounded event delivery of `hooks/ext_hooks.hpp`: critical sections as methods of a class, the threads around them as a state machine over every interleaving, and its invariants |
| `Redaction.dfy` | the in-place search-and-replace that takes credentials out of texts: when it ends, what it computes, when the value is gone |
| `Forms.dfy`, `FormLeaks.dfy` | percent-encoding, forms, `HideRequest`, and what of a form, an Authorization header and a raw body can be left in an error |
| `Loopback.dfy` | the login redirect receiver: callbacks, `Expect`, deadlines, cancellations and waits racing for one outcome |
| `DevicePoll.dfy` | the device flow's polling loop, with answers, clock and cancellation as an oracle |
| `Transport.dfy` | transport scopes as thread-local variables, against a lexical meaning |
| `Sha256.dfy`, `Base64.dfy`, `Authorization.dfy` | SHA-256, base64url, the PKCE challenge and the authorization request |
| `Urls.dfy` | `ParseUrl`, `Ipv4Literal`, `LocalEndpoint` against a grammar |
| `Utf8.dfy` | the keychain's UTF-8 reader and its names |
| `Metrics.dfy` | counters and gauges against a table keyed by name and attributes |
| `Prometheus.dfy`, `Scrape.dfy` | the Prometheus text: quoting, labels, samples, the order of the rows, header lines, and scanners that read them back |
| `Bytes.dfy`, `Ordered.dfy`, `Decimals.dfy`, `Wrappers.dfy` | byte strings and `find`, the order of `std::string`, decimal numbers, an optional value |

`std::string` is a sequence of bytes (`bv8`), `std::map` a Dafny map walked in the order of its keys. The code's
loops over strings and buffers are methods with loops, proved equal to a function; the function is then held
against a statement made without it: a grammar, an encoder, a recurrence of a standard, a history. Threads are
a step relation: each critical section is one step, and every notify, tally, join and call into a consumer is
a later step of its own.

Where comments and code disagree, the model follows the code:

* The comment on `Redact` rules out that a presented credential is ever in an error. Values under eight bytes are
  left alone by design, but a longer one can survive too: the search goes on from the mark, not from before it, so
  a value whose end agrees with the mark's beginning can be put together again (`LeakOnABracket`). `GoneExactly`
  states the values that are always gone; having no `<` is enough (`GoneWithoutBracket`).
* The loop does not end when the value is found in the text and is itself a part of `<redacted>`, the word
  `redacted` for one (`LoopEndsExactly`, `EndlessOnTheWord`). `Redact`, `HideIn` and `HideRequest` are therefore
  specified for the inputs on which their loops end. `EndsExactly` says which those are for one value and one text;
  `AllEndExactly` and `FormEndsExactly` say for which lists of values, and for which requests with a form, the loops
  end on every text.
* When several values are hidden, one that overlaps the mark at some shift can be remade by a later one
  (`Remade`); `HiddenExactly` says that these are the only ones. `FormLeaksExactly` and `TokenLeaksExactly` say the
  same of a form's values and of an Authorization header's token: a request that leaks exists exactly for those.
* `RenderPrometheus` prints label names as they are, so two label lists can print alike (`LabelsClash`).
  `PrintsAloneExactly` states the lists that print as nothing else. Lists whose names have no `=` are never confused
  with one another (`CleanPrintsApart`), and a scanner recovers them (`ScansLabels`).
* The comment in the device poll promises that it never outlives its deadline. What it sleeps does not, and
  with sleeps that take their second no request but the first is sent at the deadline or later (`TimeRespected`,
  `RequestsBeforeDeadline`); but the first
  is sent whatever the time, and the last answer may come as late as the server likes (`OutlivesDeadline`). At an
  interval of zero or less there is a server that keeps it polling for ever, and only then
  (`AlwaysEndsExactly`, `Endless`).

## Model

| member | source | states |
|---|---|---|
| Delivery.Shared.Offer | hooks/ext_hooks.hpp:295-303 | a push is accepted, at the end of the queue, exactly when delivery has not stopped and the queue has room; else nothing changes |
| Delivery.Shared.RaiseStop | hooks/ext_hooks.hpp:313-320 | the flag is up afterwards, and the call is the first exactly when it was down |
| Delivery.Shared.Take | hooks/ext_hooks.hpp:362-370 | the oldest event is popped; the loop is left only when stopped with nothing queued; the worker goes back to sleep only when neither holds |
| Delivery.Registry.AddSink | hooks/ext_hooks.hpp:233-236 | the sink is appended |
| Delivery.Registry.RemoveSink | hooks/ext_hooks.hpp:237-245 | the first registration of the sink goes, the others stay in their order |
| DeliveryProofs.PushLocks | hooks/ext_hooks.hpp:295-303 | any thread with no call open may push, the worker only from inside a sink; a push with room before any stop is queued last and owes a notify, any other changes nothing and owes the drop count |
| DeliveryProofs.StopLocks | hooks/ext_hooks.hpp:313-320 | so may it stop: the flag is up afterwards, the queue as it was, and only the first stop goes on |
| DeliveryProofs.WorkerLocks | hooks/ext_hooks.hpp:362-370 | the worker takes the oldest event; with none it leaves the loop if stopped, and sleeps otherwise |
| DeliveryProofs.CopiesRegistry | hooks/ext_hooks.hpp:343-349 | the sinks of a round, and the sinks that are flushed, are the registry's at that moment, or none when the copy throws |
| DeliveryProofs.RegistryEdits | hooks/ext_hooks.hpp:233-245 | at any moment a sink may be added, at the end, and removed, its first registration and nothing else |
| DeliveryProofs.KeepsConserved | hooks/ext_hooks.hpp:295-378 | every step of every thread keeps: accepted events are those handed out, then the one in hand, then the queue |
| DeliveryProofs.KeepsLogged | hooks/ext_hooks.hpp:371-384 | every step keeps: the calls made are one OnEvent per sink of each round's copy, in order, throwing or not, and the present round's so far |
| DeliveryProofs.KeepsNoLostWakeup | hooks/ext_hooks.hpp:304-321 | every step keeps: a parked worker with an event or a stop to see is owed a notify by a thread that has left the lock |
| DeliveryProofs.KeepsLeftByStop | hooks/ext_hooks.hpp:359-385 | every step keeps: the loop was left only when stopped and drained, and a join returned only after the worker ended |
| DeliveryProofs.KeepsNoSelfJoin | hooks/ext_hooks.hpp:325-329 | every step keeps: the worker is never in a join, whatever a sink calls |
| DeliveryProofs.KeepsStopOnce | hooks/ext_hooks.hpp:315-329 | every step keeps: one stopping call is past the flag at a time, and it finds the thread attached |
| DeliveryProofs.KeepsCounted | hooks/ext_hooks.hpp:304-309 | every step keeps: pushes are accepted, dropped or about to be counted; throws are counted but the one in hand |
| DeliveryProofs.ExactlyOnceInOrder | hooks/ext_hooks.hpp:270-310 | after every run: no accepted event is lost, repeated or reordered, the queue is within capacity, and each sink of a round's copy was called once with its event |
| DeliveryProofs.CountsAreConserved | hooks/ext_hooks.hpp:294-309 | after every run: pushes = accepted + "dropped" counts + those about to count; accepted = pushes that returned true + those about to; throws = "sink_failed" counts + the one in hand |
| DeliveryProofs.StopRefuses | hooks/ext_hooks.hpp:294-320 | from a raised flag on, no run accepts an event, lowers the flag or grows the queue |
| DeliveryProofs.DrainedThenFlushed | hooks/ext_hooks.hpp:311-385 | after every run: once the worker has ended, everything accepted was handed out and each sink of the last copy was flushed once; no OnEvent follows a Flush; a join returns only then |
| DeliveryProofs.FlushedAtEnd | hooks/ext_hooks.hpp:379-384 | over every run: a sink registered before the last copy, that is not removed and whose copy does not throw, has been flushed once the worker has ended |
| DeliveryProofs.PushedIsHeard | hooks/ext_hooks.hpp:295-378 | over every run: an accepted push is heard by each sink that is registered then and stays, by the next rest of the system and by the worker's end |
| DeliveryProofs.SystemStepsDescend | hooks/ext_hooks.hpp:295-385 | each step that needs nobody outside lowers a well-founded measure: calls in progress, then the queue, then the worker's stage |
| DeliveryProofs.Rest | hooks/ext_hooks.hpp:359-385 | where no such step is left, every call has returned, everything accepted was handed out, and the worker is parked with nothing to do or has flushed and ended |
| DeliveryProofs.Settles | hooks/ext_hooks.hpp:295-385 | from every state the invariant holds in, the system reaches such a rest by itself |
| DeliveryProofs.NeverStuck | hooks/ext_hooks.hpp:311-330 | after every run: no self-join, and until the worker has ended, with an event queued or a stop asked for, some step is enabled that needs nobody outside |
| DeliveryProofs.StopDrains | hooks/ext_hooks.hpp:311-385 | from a stop on, for every run of every thread, the worker makes no more steps than the queue, its stage and the most sinks registered allow; after as many it has ended; once awake it is not parked again |
| DeliveryProofs.StopNeverWaits | hooks/ext_hooks.hpp:311-385 | until then one is enabled of: the worker's own step, a notify while it is parked, a step of the call it made in a sink |
| DeliveryProofs.StopIsAlone | hooks/ext_hooks.hpp:313-330 | after every run: of all callers of Stop one is past the flag, and `joinable` never turns it away |
| DeliveryProofs.StopWaits | hooks/ext_hooks.hpp:321-330 | over every run: the first stop, on any thread but the worker's, does not return before the worker has ended |
| DeliveryProofs.OwnStopReturns | hooks/ext_hooks.hpp:321-328 | the worker's own stop is back after two steps of its own, the thread detached and where it was |
| DeliveryProofs.RemovedHearsAtMostOneMore | hooks/ext_hooks.hpp:172-175 | for every interleaving of registry edits with the worker: a sink registered once is called with at most one more event after RemoveSink returned |
| DeliveryProofs.OneMoreCanHappen | hooks/ext_hooks.hpp:172-175 | the bound is met: a run in which the removed sink is called once more |
| Redaction.Scrub | oidc/src/oidc_core.cpp:484-486 | the search-and-replace loop ends and computes the recursive result, on every input on which it ends at all |
| Redaction.SpelledMark | oidc/src/oidc_core.cpp:485 | the mark is `<redacted>` |
| Redaction.LoopEndsExactly | oidc/src/oidc_core.cpp:484-486 | the loop ends if and only if the value is not in the text or is no part of the mark |
| Redaction.OnlyOccurrencesReplaced | oidc/src/oidc_core.cpp:1229-1231 | for a value that begins nowhere in the mark the loop is the plain replacement of its occurrences, from left to right: the rest of the text stays as it was |
| Redaction.GoneWhenSafe | oidc/src/oidc_core.cpp:1224-1231 | a value that is no part of the mark, and whose ends agree with the mark's beginning only where they agree with its own, is gone from every text |
| Redaction.GoneExactly | oidc/src/oidc_core.cpp:1224-1231 | and no other value that is no part of the mark is gone from every text |
| Redaction.LeakOnABracket | oidc/src/oidc_core.cpp:1229-1231 | a concrete text that still shows the value after the loop |
| Redaction.GoneWithoutBracket | oidc/src/oidc_core.cpp:1225-1231 | a value of eight bytes or more, no part of the mark and without '<', is gone from every text |
| Redaction.Redact | oidc/src/oidc_core.cpp:1225-1232 | short values leave the text alone; others are scrubbed by the loop |
| Redaction.EndsExactly | oidc/src/oidc_core.cpp:1226-1231 | Redact ends if and only if the value is short, absent, or no part of "<redacted>" |
| Redaction.EndlessOnTheWord | oidc/src/oidc_core.cpp:1229-1231 | it does not end on the text "redacted" with the value "redacted" |
| Redaction.HideIn | oidc/src/oidc_core.cpp:479-488 | the values are taken out one after the other |
| Redaction.AllEndExactly | oidc/src/oidc_core.cpp:479-488 | every loop of a list ends on every body if and only if no listed value of eight bytes or more is part of the mark |
| Redaction.HiddenForGood | oidc/src/oidc_core.cpp:476-488 | a listed value of eight bytes or more that overlaps the mark at no shift is gone at the end, whatever else is listed and in whatever order |
| Redaction.Remade | oidc/src/oidc_core.cpp:480-487 | for every value that does overlap the mark: a body and a list after which it shows |
| Redaction.HiddenExactly | oidc/src/oidc_core.cpp:476-488 | a listed value can show at the end if and only if it overlaps the mark at some shift |
| Redaction.TouchingHasBracket | oidc/src/oidc_core.cpp:485 | what overlaps "<redacted>" has a '<' or a '>' or is the word "redacted" |
| Forms.UrlEncode | oidc/src/oidc_core.cpp:144-158 | the encoder's loop computes the byte-by-byte encoding |
| Forms.Decode | oidc/src/oidc_core.cpp:604-613 | the decoder's loop computes the recursive decoding, malformed escapes and '+' included |
| Forms.UnreservedAre | oidc/src/oidc_core.cpp:149 | left alone are letters, digits and `-_.~` |
| Forms.EscapeIs | oidc/src/oidc_core.cpp:145-154 | an escape's digits are those of the table, in capitals |
| Forms.HexReads | oidc/src/oidc_core.cpp:606-608 | the decoder reads hex digits in capitals and in small letters |
| Forms.DecodesByByte | oidc/src/oidc_core.cpp:605-612 | a plus is a space, an escape is sixteen times its first digit and its second, and every other byte is itself |
| Forms.DecodesEncoded | oidc/src/oidc_core.cpp:144-158 | decoding inverts encoding, on every byte string |
| Forms.EncodedPlain | oidc/src/oidc_core.cpp:149-155 | an encoding holds unreserved bytes and '%' only and is no shorter than the value |
| Forms.FormEncode | oidc/src/oidc_core.cpp:160-169 | the loop joins the encoded pairs by '&' |
| Forms.PiecesOfForm | oidc/src/oidc_core.cpp:595-620 | cutting an encoded form at '&' gives its pairs back, one for one |
| Forms.ReadsForm | oidc/src/oidc_core.cpp:160-169 | a form decodes back to its entries, in order, whatever bytes they hold |
| Forms.HideHeader | oidc/src/oidc_core.cpp:585-593 | of an Authorization header, in any case of its name, the value and what follows its first space are taken out; of another, nothing |
| Forms.HideHeaders | oidc/src/oidc_core.cpp:584-594 | the loop over the headers takes out their secrets, in order |
| Forms.HidePair | oidc/src/oidc_core.cpp:599-615 | of a pair, the value as sent and then as meant are taken out; of a piece without '=', nothing |
| Forms.HideForm | oidc/src/oidc_core.cpp:596-620 | the loop over the pieces takes out the pairs' values, in order |
| Forms.HideRequest | oidc/src/oidc_core.cpp:582-624 | the headers' secrets, then a form's values or, for any other content type, the whole body, are taken out |
| Forms.SpelledNames | oidc/src/oidc_core.cpp:587-611 | the bytes compared are those of `authorization`, `&`, `=`, `%`, `+` and the space |
| Forms.SpelledType | oidc/src/oidc_core.cpp:595 | the form's content type is `application/x-www-form-urlencoded` |
| FormLeaks.AuthorizesExactly | oidc/src/oidc_core.cpp:585-587 | a header is hidden if and only if its name is `authorization` with each letter small or capital |
| Forms.SecretsOfForm | oidc/src/oidc_core.cpp:595-620 | of an encoded form, exactly each value as sent and as meant is taken out, in order |
| Forms.FormEndsExactly | oidc/src/oidc_core.cpp:582-624 | hiding a request with an encoded form ends on every error if and only if neither its headers' secrets nor the form's values hold a part of the mark of eight bytes or more |
| Forms.FormValuesHidden | oidc/src/oidc_core.cpp:580-624 | end to end: of a request whose body is an encoded form, no value of eight bytes or more is left in the error, as sent or as meant, unless it overlaps the mark |
| FormLeaks.RemadeInForm | oidc/src/oidc_core.cpp:595-621 | for every value of eight bytes or more that does overlap the mark: an error and a form of a map's entries after which it shows |
| FormLeaks.FormLeaksExactly | oidc/src/oidc_core.cpp:580-624 | some error, headers and form show a value of eight bytes or more if and only if it overlaps the mark |
| FormLeaks.EncodedLeaksExactly | oidc/src/oidc_core.cpp:602-603 | as it was sent, only the word "redacted" can ever show |
| FormLeaks.HeaderHidden | oidc/src/oidc_core.cpp:580-593 | neither an Authorization header's value nor its token is left, if of eight bytes or more and not overlapping the mark, whatever else the request carried; nor is a value whose token is such |
| FormLeaks.HeaderLeaksExactly | oidc/src/oidc_core.cpp:580-624 | some request shows an Authorization value of eight bytes or more, without a token hidden on its own, if and only if the value overlaps the mark |
| FormLeaks.TokenLeaksExactly | oidc/src/oidc_core.cpp:580-624 | some request shows its Authorization token of eight bytes or more if and only if the token overlaps the mark |
| FormLeaks.BodyLeaksExactly | oidc/src/oidc_core.cpp:621-623 | some error shows a raw body of eight bytes or more if and only if it is no part of the mark and not always gone |
| Loopback.Receiver.Handle | oidc/src/oidc_core.cpp:1620-1645 | a callback commits its outcome (its code, its error and description made printable, or that it carried neither) exactly when nothing is decided and its state is the expected one, not empty; else it is refused with 400 and changes nothing |
| Loopback.Receiver.Expect | oidc/src/oidc_core.cpp:1678-1681 | the expected state is set and nothing else changes |
| Loopback.Receiver.Check | oidc/src/oidc_core.cpp:1692-1708 | a wait's check returns a decided outcome, commits the timeout at the deadline, else goes on; it moves no decided outcome |
| Loopback.Receiver.Cancel | oidc/src/oidc_core.cpp:1715-1724 | a cancellation commits unless something is decided already |
| Loopback.Printable | oidc/src/oidc_core.cpp:459-465 | the first 512 characters, each control character a question mark and every other as it was |
| Loopback.FirstStartDecides | oidc/src/oidc_core.cpp:1609-1671 | the receiver runs if the first start bound its port, and no later start changes that |
| Loopback.ExpectSets | oidc/src/oidc_core.cpp:1678-1681 | only the expected state is set |
| Loopback.WaitEnters | oidc/src/oidc_core.cpp:1683-1691 | a wait on a running receiver is entered with its deadline |
| Loopback.CallerIsAsked | oidc/src/oidc_core.cpp:1702-1724 | undecided and before the deadline each turn of a wait asks the caller: a no leaves everything as it was, a yes ends it as cancelled |
| Loopback.KeepsInv | oidc/src/oidc_core.cpp:1620-1728 | every step keeps: the outcome fits its origin, is a code or an error, and is what every leaving wait holds |
| Loopback.Frozen | oidc/src/oidc_core.cpp:1626-1642 | once decided, no run moves the outcome or its origin |
| Loopback.CallbackDecides | oidc/src/oidc_core.cpp:1624-1642 | the first callback with the expected state decides every run: its code, or its error and description made printable, or that it carried neither |
| Loopback.CallerDecides | oidc/src/oidc_core.cpp:1715-1724 | the caller's yes decides every run in which nothing else had |
| Loopback.DeadlineDecides | oidc/src/oidc_core.cpp:1702-1708 | so does a check at the deadline or after it |
| Loopback.OneOutcome | oidc/src/oidc_core.cpp:1683-1728 | after every run: every wait returned the one outcome, a code without an error or an error without a code, so the "already used" answer is never given |
| Loopback.LoginSucceeds | oidc/src/oidc_core.cpp:1631-1701 | after a good callback every wait that returns, in any run, returns its code |
| Loopback.CodeFromTheExpected | oidc/src/oidc_core.cpp:1624-1642 | after every run: a code is that of a callback without an error whose state equalled the expected one, not empty |
| Loopback.OthersRefused | oidc/src/oidc_core.cpp:1624-1630 | any other callback leaves every later run as if it had not come |
| Loopback.WaitReturns | oidc/src/oidc_core.cpp:1691-1726 | with the outcome there, each of a waiter's own steps brings it nearer its return, no other step takes it back, and one is always enabled |
| Loopback.DeadlineEnds | oidc/src/oidc_core.cpp:1702-1708 | a check made at the deadline or later never goes back to sleep |
| Loopback.WaitComesBack | oidc/src/oidc_core.cpp:1691-1726 | from its deadline on, from any point of the loop and whatever everybody else does, a wait that has not returned has made at most four steps and its next is enabled |
| Loopback.FiveStepsReturn | oidc/src/oidc_core.cpp:1683-1728 | after every run: five own steps past the deadline are behind the return, and the one outcome has been handed out |
| DevicePoll.SleepLoop | oidc/src/oidc_core.cpp:1502-1510 | the slices of a second, each after a check of its own |
| DevicePoll.Poll | oidc/src/oidc_core.cpp:1468-1511 | the loop computes the poll the oracle determines |
| DevicePoll.PollReports | oidc/src/oidc_core.cpp:1472-1511 | however a poll ends: a report is the last answer, granted or an error; a time-out has a last answer that says to wait and an interval that reaches the deadline; a cancellation is the last check's; all answers before are pending or slow_down, and the interval grew with just these slow_downs |
| DevicePoll.TimeRespected | oidc/src/oidc_core.cpp:1489-1510 | whatever the answers: the seconds slept stay below the time there was, none if none; requests are at least the interval apart; k slow_downs grow it by 5 each, to 3600 (section 3.5 of RFC 8628); every request after the first is before the deadline, but for what the sleeps overran, and so is the end unless it is the start or the moment of the last answer |
| DevicePoll.RequestsBeforeDeadline | oidc/src/oidc_core.cpp:1494-1510 | with sleeps that take their second, every request after the first is sent before the deadline |
| DevicePoll.OutlivesDeadline | oidc/src/oidc_core.cpp:1494-1501 | the poll ends any number of seconds after its deadline, when the first answer takes that long |
| DevicePoll.EndsByTheClock | oidc/src/oidc_core.cpp:1472-1511 | with a positive interval the poll ends, whatever the server answers |
| DevicePoll.ParsedInterval | oidc/src/oidc_core.cpp:1451-1454 | the parsed interval is the server's within 1..900, the default 5 for none |
| DevicePoll.ParsedPollsEnd | oidc/src/oidc_core.cpp:1451-1511 | a poll at a parsed interval ends, whatever the server answers |
| DevicePoll.ZeroIntervalEndsExactly | oidc/src/oidc_core.cpp:1468-1511 | in a given world, at an interval of zero it ends if and only if a check, an answer other than "pending" or the clock stops it |
| DevicePoll.Endless | oidc/src/oidc_core.cpp:1468-1511 | at an interval of zero or less, a server that always answers "pending" at once keeps it polling for ever |
| DevicePoll.AlwaysEndsExactly | oidc/src/oidc_core.cpp:1468-1511 | the poll ends in every world, for every deadline and start, if and only if its interval is positive |
| Transport.Thread.HttpSend | oidc/src/oidc_core.cpp:693-718 | a send does what the lexical meaning says, a URL that does not parse included, and leaves both thread-local variables as they were, also when the transport throws or calls back |
| Transport.Thread.Exec | oidc/src/oidc_core.cpp:665-677 | so does every program of scopes, default changes, sends, throws and catches |
| Transport.SendEnters | oidc/src/oidc_core.cpp:626-715 | outside a transport a well-formed request enters the scope's transport, else the default; an empty one of either is the built-in client |
| Transport.ScopeFirst | oidc/src/oidc_core.cpp:670-677 | a scope's transport goes before a default set inside it, and is gone behind the scope |
| Transport.SendEnds | oidc/src/oidc_core.cpp:701-717 | a URL that does not parse reaches no transport; what a transport throws is handed on, and the default it set stays |
| Transport.BuiltInInside | oidc/src/oidc_core.cpp:576 | what a transport sends itself reaches the built-in client only |
| Transport.NeverNested | oidc/src/oidc_core.cpp:696-715 | at every moment of every program at most one transport is on the call stack, and none at the end |
| Transport.ScopeDecides | oidc/src/oidc_core.cpp:626-632 | under a scope no default, whenever it is set, changes what is called or how it ends |
| Transport.ScopeShields | oidc/src/oidc_core.cpp:670-677 | nor does the scope around it |
| Sha256.Pad | oidc/src/oidc_core.cpp:380-388 | the padding loops compute section 5.1.1 of FIPS 180-4 |
| Sha256.PaddedShape | oidc/src/oidc_core.cpp:380-388 | whole blocks: the message, 0x80, the fewest zeros, and the 64-bit big-endian length in bits |
| Sha256.PaddedInjective | oidc/src/oidc_core.cpp:380-388 | no two messages, of any lengths, pad to the same blocks |
| Sha256.ConstantsAre | oidc/src/oidc_core.cpp:367-375 | each of the 64 constants is the first 32 bits of the fraction of the cube root of its prime (section 4.2.2 of FIPS 180-4) |
| Sha256.InitialAre | oidc/src/oidc_core.cpp:376 | each word of the first hash is that of the square root of one of the first eight primes (section 5.3.3) |
| Sha256.SigmasRotate | oidc/src/oidc_core.cpp:396-403 | the four functions mix the rotations and shifts of section 4.1.2 |
| Sha256.ChoiceIs | oidc/src/oidc_core.cpp:402 | the first word selects bit by bit between the other two |
| Sha256.MajorityIs | oidc/src/oidc_core.cpp:403 | where two of the three words agree the result has their bit |
| Sha256.PlusCounts | oidc/src/oidc_core.cpp:399-412 | 32-bit addition, wrapping |
| Sha256.ScheduleIs | oidc/src/oidc_core.cpp:391-399 | the first 16 words are the block's bytes, and each later one is the sum of section 6.2.2 |
| Sha256.CompressedIs | oidc/src/oidc_core.cpp:401-420 | the working variables begin as the hash and are added into it |
| Sha256.BlocksInOrder | oidc/src/oidc_core.cpp:389-421 | blocks are compressed one after the other, each from the hash of those before |
| Sha256.Schedule | oidc/src/oidc_core.cpp:390-399 | the array filled in place is the message schedule of section 6.2.2, indices in range |
| Sha256.Compress | oidc/src/oidc_core.cpp:400-420 | the rotating variables compute the two sequences A and E of the rounds, added into the hash |
| Sha256.RoundIs | oidc/src/oidc_core.cpp:401-412 | one round on the eight working variables, as section 6.2.2 has it |
| Sha256.Temp1AsCoded | oidc/src/oidc_core.cpp:402 | the code's exclusive-or form is the bitwise choice the recurrence is stated with |
| Sha256.Temp2AsCoded | oidc/src/oidc_core.cpp:403 | the code's exclusive-or form is the bitwise majority |
| Sha256.Rotates | oidc/src/oidc_core.cpp:377-379 | the two shifts rotate, by each distance in use |
| Sha256.CompressAll | oidc/src/oidc_core.cpp:389-421 | the loop over the chunks folds the compression over the blocks |
| Sha256.Digest | oidc/src/oidc_core.cpp:422-428 | the nested loops write the words' bytes, the high one first |
| Sha256.Sha256 | oidc/src/oidc_core.cpp:366-429 | the digest of the padded message's hash, from the initial words |
| Sha256.ShaShape | oidc/src/oidc_core.cpp:422-428 | a digest is 32 bytes, and its big-endian words are the hash |
| Base64.Encode | oidc/src/oidc_core.cpp:432-455 | the loop and the two endings compute the grouped encoding |
| Base64.Letters0 | oidc/src/oidc_core.cpp:432-455 | letters 0 to 12 of the alphabet of section 5 of RFC 4648 |
| Base64.Letters13 | oidc/src/oidc_core.cpp:432-455 | letters 13 to 25 |
| Base64.Letters26 | oidc/src/oidc_core.cpp:432-455 | letters 26 to 38 |
| Base64.Letters39 | oidc/src/oidc_core.cpp:432-455 | letters 39 to 51 |
| Base64.Letters52 | oidc/src/oidc_core.cpp:432-455 | letters 52 to 63 |
| Base64.LetterOfValue | oidc/src/oidc_core.cpp:497-509 | the decoder knows no other letter |
| Base64.EncodedLength | oidc/src/oidc_core.cpp:432-455 | n bytes make ceil(4n/3) letters |
| Base64.EncodedSpells | oidc/src/oidc_core.cpp:432-455 | the letters are of the alphabet, and their six-bit values spell the bytes' bits and zeros to fill the last (section 5 of RFC 4648) |
| Base64.Decode | oidc/src/oidc_core.cpp:491-518 | the bytes are the whole octets of what the leading letters spell, up to the first other byte; the masked accumulator loses no pending bit |
| Base64.Octet | oidc/src/oidc_core.cpp:510-514 | six bits pushed onto two, four or six pending ones: the octet taken out and what stays pending are those bits, in order, whatever the 24-bit mask cut |
| Base64.DecodingUnique | oidc/src/oidc_core.cpp:491-518 | a text has one decoding |
| Base64.DecodesEncoded | oidc/src/oidc_core.cpp:432-518 | decoding inverts encoding, on every byte string |
| Authorization.PkceChallenge | oidc/src/oidc_core.cpp:1514-1516 | the challenge is the encoding of the verifier's digest |
| Authorization.ChallengeShape | oidc/src/oidc_core.cpp:1514-1516 | it is 43 base64url letters for every verifier, and decodes to the digest and nothing else (section 4.2 of RFC 7636) |
| Authorization.Merge | oidc/src/oidc_core.cpp:1557-1564 | the caller's parameters join the flow's, never over one of them and never a barred one |
| Authorization.Entries | oidc/src/oidc_core.cpp:162 | a map's entries, each once, in the order of their names |
| Authorization.BuildAuthorizationRequest | oidc/src/oidc_core.cpp:1533-1568 | refused, with the reason, exactly without usable endpoints or an authorization endpoint; else the URL is the endpoint, '?' or '&', and the form of the merged parameters |
| Authorization.QueryReads | oidc/src/oidc_core.cpp:1565-1566 | the query reads as the endpoint's own, if any, and then exactly the merged parameters |
| Authorization.OwnReach | oidc/src/oidc_core.cpp:1548-1566 | each of the flow's own parameters is read once more than the endpoint's own query has it, the last time with the flow's value, whatever the caller adds: once exactly where that query lacks it |
| Authorization.ExtraKept | oidc/src/oidc_core.cpp:1557-1564 | of the caller's, exactly those neither barred nor the flow's are there, with their values |
| Authorization.NoneBarred | oidc/src/oidc_core.cpp:1557-1564 | no parameter of the query is `request`, `request_uri` or `response_mode`, and a name that is not the flow's is there if and only if the caller gave it and it is none of these |
| Authorization.OwnHas | oidc/src/oidc_core.cpp:1548-1556 | the flow's own names are apart from each other and from the barred ones, and `scope` is there exactly when not empty |
| Authorization.SpelledOwn | oidc/src/oidc_core.cpp:1548 | the names and values are these texts: `response_type`, `code` |
| Authorization.SpelledClient | oidc/src/oidc_core.cpp:1549-1551 | `client_id`, `redirect_uri`, `state` |
| Authorization.SpelledChallenge | oidc/src/oidc_core.cpp:1552-1553 | `code_challenge`, `code_challenge_method`, `S256` |
| Authorization.SpelledRest | oidc/src/oidc_core.cpp:1555-1565 | `scope`, `request`, and the two separators |
| Authorization.SpelledBarred | oidc/src/oidc_core.cpp:1560 | `request_uri`, `response_mode` |
| Urls.ParseUrl | oidc/src/oidc_core.cpp:81-142 | parts are returned if and only if the URL has the grammar's form with these parts: http or https, a plain or bracketed host, a port of 1 to 5 digits within 1..65535 or the scheme's, a path; and each error if and only if the URL fails in its way: no such scheme, an authority that is not made of host and port or has no host, a port that is none |
| Urls.FailsUnique | oidc/src/oidc_core.cpp:89-140 | a URL fails in one way at most |
| Urls.ReadAuthority | oidc/src/oidc_core.cpp:97-120 | host and port text are found if and only if the authority is made of them |
| Urls.ReadPort | oidc/src/oidc_core.cpp:121-137 | a port is accepted if and only if it is empty text or digits of a port's size |
| Urls.DenotesUnique | oidc/src/oidc_core.cpp:80-142 | a URL has one reading |
| Urls.ParsesPrinted | oidc/src/oidc_core.cpp:81-142 | printing scheme, host, port and path and parsing gives them back, for a plain host with colons and for a bracketed one too |
| Urls.ParsesBare | oidc/src/oidc_core.cpp:93-122 | a URL without a port, or with an empty one, has port 443 for https and 80 for http, and without a path the path `/` |
| Urls.PortsRead | oidc/src/oidc_core.cpp:121-137 | after a plain host and its colon stands nothing, or at most five digits for a number from 1 to 65535; anything else is refused |
| Urls.PortInRange | oidc/src/oidc_core.cpp:81-142 | whatever is parsed has a port from 1 to 65535, a host, and a path that begins with a slash |
| Urls.SpelledUrls | oidc/src/oidc_core.cpp:84-113 | the schemes and the separators are these texts |
| Urls.Ipv4Literal | oidc/src/oidc_core.cpp:878-901 | the nested loops read exactly what the four-group reader reads, into the caller's array |
| Urls.OctetsExactly | oidc/src/oidc_core.cpp:877-901 | that is: four dot-joined groups of one to three digits, each at most 255, and nothing else |
| Urls.LocalEndpoint | oidc/src/oidc_core.cpp:903-926 | local if and only if the URL parses, no '@' is in its authority, and its host is localhost, ::1, or a literal 127.x.x.x or 169.254.x.x |
| Urls.AddressLocal | oidc/src/oidc_core.cpp:924-925 | of the addresses in dotted decimals those of 127.0.0.0/8 and 169.254.0.0/16 are local, and no other |
| Urls.NameLocal | oidc/src/oidc_core.cpp:921-925 | a host with any byte but digits and dots is local if and only if it is one of the two names |
| Urls.NamesLocal | oidc/src/oidc_core.cpp:921-923 | both names are local |
| Urls.SpelledLocal | oidc/src/oidc_core.cpp:907-921 | the names are `localhost` and `::1` |
| Utf8.ReadSequence | keychain/src/keychain.cpp:58-90 | one sequence: its length, or a refusal if it is truncated, overlong, a surrogate or too large |
| Utf8.ValidUtf8 | keychain/src/keychain.cpp:55-93 | the loop accepts the texts made of such sequences |
| Utf8.ValidExactly | keychain/src/keychain.cpp:53-93 | these are exactly the encodings of sequences of Unicode scalar values (sections 3 and 4 of RFC 3629) |
| Utf8.EncodingUnique | keychain/src/keychain.cpp:53-54 | and the sequence is unique |
| Utf8.NamesOk | keychain/src/keychain.cpp:95-106 | accepted exactly when both are text, the service is not empty and has no '/', with the reason otherwise |
| Utf8.AcceptedExactly | keychain/src/keychain.cpp:95-106 | accepted are exactly a service and an account that encode scalar values, the service not empty and without a slash |
| Utf8.TargetDetermines | keychain/src/keychain.cpp:296-303 | for accepted names, service + "/" + account determines both |
| Ordered.Walk | hooks/ext_hooks.hpp:92 | a map's keys are walked in ascending order, each once |
| Ordered.BelowExactly | hooks/ext_hooks.hpp:92 | a text is before another if and only if it is a proper prefix or has the smaller byte at the first difference |
| Decimals.DecimalReads | hooks/ext_hooks.hpp:63-64 | a number's decimal text is digits, and they spell the number |
| Decimals.DecimalFirst | hooks/ext_hooks.hpp:63-64 | and no zero stands in front |
| Decimals.SpelledDigits | hooks/ext_hooks.hpp:63-64 | the digits are `0123456789` |
| Metrics.AttributesKey | hooks/ext_hooks.hpp:60-67 | the loop appends each name and value behind its length |
| Metrics.PrefixDecides | hooks/ext_hooks.hpp:58-65 | a length-prefixed text can be told from what follows it, whatever bytes it holds |
| Metrics.FullKeyDecides | hooks/ext_hooks.hpp:58-73 | no two pairs of a name and attributes share a key |
| Metrics.KeyExample | hooks/ext_hooks.hpp:60-67 | the key of `a` with the value `bc` is `1:a2:bc` |
| Metrics.Counters.Add | hooks/ext_hooks.hpp:72-82 | the table keyed by pairs gains the delta at exactly this pair |
| Metrics.Counters.Get | hooks/ext_hooks.hpp:83-88 | exactly this pair's total, 0 for one never added to |
| Metrics.Counters.Snapshot | hooks/ext_hooks.hpp:89-103 | one row for each pair of the table with its total, in the order of the keys |
| Metrics.RowIsCounter | hooks/ext_hooks.hpp:94-99 | a counter's row has its name, attributes and total, the unit `1` and no description |
| Metrics.CountersAreSums | hooks/ext_hooks.hpp:69-88 | over every history: a total is the sum of exactly its pair's deltas, and a pair is there exactly when it was added to |
| Metrics.Gauges.Register | hooks/ext_hooks.hpp:119-132 | the pair's entry is replaced in place, or appended, and pairs stay distinct |
| Metrics.Gauges.Remove | hooks/ext_hooks.hpp:133-138 | the erasing loop leaves the other entries, in order |
| Metrics.Gauges.Snapshot | hooks/ext_hooks.hpp:139-158 | the rows of the entries in order, those whose reader throws left out |
| Metrics.RegisterSets | hooks/ext_hooks.hpp:119-132 | as a table: exactly this pair's entry is set |
| Metrics.RemoveDeletes | hooks/ext_hooks.hpp:133-138 | as a table: exactly this pair's entry is deleted |
| Metrics.RowsAre | hooks/ext_hooks.hpp:111-158 | a row is in a snapshot if and only if its pair is registered with a reader that answers its value: a removed reader is not asked |
| Metrics.RowOfGauge | hooks/ext_hooks.hpp:139-158 | a registered gauge whose reader answers has a row with its name, attributes, unit, description and the answer |
| Metrics.RowsDistinct | hooks/ext_hooks.hpp:119-158 | no pair has two rows |
| Prometheus.Quote | contracts/acl_audit.hpp:589-602 | the loop computes the escaped and quoted value |
| Prometheus.EscapesAre | contracts/acl_audit.hpp:591-599 | a quote, a backslash and a line end are escaped, as `\"`, `\\` and `\n`, and no other byte is |
| Prometheus.SpelledBytes | contracts/acl_audit.hpp:589-626 | the separators are these bytes |
| Prometheus.UnquotesQuoted | contracts/acl_audit.hpp:589-602 | a scanner reads any value back, whatever follows it |
| Prometheus.QuotedOneLine | contracts/acl_audit.hpp:595-598 | a quoted value has no line end |
| Prometheus.JoinLabels | contracts/acl_audit.hpp:618-624 | the loop joins the labels by commas |
| Prometheus.ScansLabels | contracts/acl_audit.hpp:618-625 | a scanner recovers every label list whose names have no '=', whatever the values hold |
| Prometheus.CleanPrintsApart | contracts/acl_audit.hpp:618-625 | two such lists that print alike are the same |
| Prometheus.PrintsAloneExactly | contracts/acl_audit.hpp:618-624 | a label list prints as no other list does if and only if it is empty, or one label whose name does not begin with a whole label and a comma |
| Prometheus.LabelsClash | contracts/acl_audit.hpp:619-624 | any two labels print as one label with the first inside its name |
| Prometheus.ScansSample | contracts/acl_audit.hpp:610-625 | a sample's line reads back as its underscored name, its labels and its value |
| Prometheus.Render | contracts/acl_audit.hpp:609-626 | one row: a header when the name is not the last one, then the sample |
| Prometheus.UnderscoredIs | contracts/acl_audit.hpp:603-606 | each dot is an underscore, every other byte as it was |
| Prometheus.SpelledHeaders | contracts/acl_audit.hpp:614-616 | the header lines begin with `# HELP ` and `# TYPE ` |
| Prometheus.Sort | contracts/acl_audit.hpp:627-636 | the same rows, ordered by name and then by the attributes' key |
| Prometheus.InOrderByBoth | contracts/acl_audit.hpp:627-629 | sorted rows ascend by name, and those of one name by their attributes' key |
| Prometheus.SortKeyFirst | contracts/acl_audit.hpp:350-356 | that key is each name, `=`, its value and the byte 0x1f |
| Prometheus.RenderSections | contracts/acl_audit.hpp:632-639 | the text is the printed lines of both sections, the last name running through |
| Prometheus.RenderPrometheus | contracts/acl_audit.hpp:588-641 | the text is the printed lines of some ordering of the counters and then of the gauges, as the comparator has it |
| Prometheus.SamplesAreRows | contracts/acl_audit.hpp:609-626 | the sample lines are the rows, each once and in their order |
| Scrape.TextReads | contracts/acl_audit.hpp:588-641 | the rendered text, cut at its line ends, reads back as every row's name, labels and value in order, for texts without a line end, plain names and label names without '=' |
| Scrape.TextHeaders | contracts/acl_audit.hpp:609-641 | its HELP and TYPE lines read back, in order, as a description, if there is one, and a kind for each row whose name differs from the row's before |
| Prometheus.TypedOnce | contracts/acl_audit.hpp:611-617 | in the first section each name has one TYPE line, and only the empty name has none |
| Prometheus.TypedInBoth | contracts/acl_audit.hpp:608-640 | in the whole text a name has one for each section it is in, except the gauges' first name where it is the counters' last |
| Prometheus.HeadersClashExactly | contracts/acl_audit.hpp:603-617 | two TYPE lines of a section print the same metric if and only if two of its names differ in dots and underscores only |
| Prometheus.TextClashesExactly | contracts/acl_audit.hpp:603-640 | two TYPE lines of the whole text print the same metric if and only if a name heads both sections or two names that head a section differ in dots and underscores only |

## Left out

- Redaction.Redact: specified where its loop ends; elsewhere the code does not return, and `EndsExactly` says where that is.
- Redaction.HideIn: the same, for each value in turn.
- Forms.HideRequest: the same, for each secret in turn.
- DevicePoll.TimeRespected: does not model 64-bit overflow of an extreme interval or deadline; seconds are mathematical integers and the clock never runs backwards.
- Transport.Thread.HttpSend: what a transport's error text goes through afterwards is `HideRequest`, modelled apart.
- Transport.ScopeShields: one thread's view; a default set by another thread between two sends is not a step of the program.
- Metrics.Counters.Add: totals are mathematical integers; a sum beyond `int64_t` is undefined in the code.
- Authorization.OwnReach: a fragment in the endpoint is not looked at.
- Loopback.WaitReturns: what a leaving wait does after the lock, stopping the server and joining its thread, is one step.
- The two locks of a registry and its metrics, memory ownership of sinks, the destructor of `Delivery` racing with other callers, and a `count` function that calls back into `Push`.
- `std::thread` and `std::condition_variable` themselves: a notify wakes the one waiter there is, and spurious wakeups are steps.
- A `Wait` on a receiver that is not running, which reports that and touches nothing.
- The HTTP server and client, sockets, TLS, certificate bundles, assertions and signatures.
- JSON, token responses, discovery, token caching and expiry.
- Randomness: state and verifier are parameters of the authorization request.
- `std::sort`: of its result only what its contract gives is used, rows that compare equal in any order. HELP texts are printed as they are, unescaped.
- Locales: `isalnum`, `isdigit`, `isxdigit` and `tolower` are those of the "C" locale.
- The wording of errors in `ParseUrl` and `NamesOk`, kept as one value for each kind.
- The keychain's stores, the wide-character conversion of a target, and the secrets' own checks.
- No digest of a particular message is evaluated.
- `AuditCounters` and `AuditGauges`, near copies of the counters and gauges modelled here with another key.
- `Reach`, version stamps, session hooks and level names, each settled by reading one branch.
