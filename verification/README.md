# moose_tools: a verified model

This project models the parts of moose_tools whose correctness depends on order, state or arithmetic,
and proves properties of them for every input and every run.

- **SOCKS4 handshake and timed connect.** Each is an asynchronous operation that races a timer which
  closes the socket. A run is a sequence of events on one io thread: the initiating call, answers of
  the resolver and the network (with any error and any fragmentation), expiry of the timer, handlers
  running one at a time in any order, and the owner closing the socket. `Socks4`/`TimedConnect` hold
  the steps, `Socks4Runs` and `TimedConnect` the theorems about all runs, and the classes in
  `Socks4Handshake` and `TimedConnectOperation` perform the same steps in place, on byte buffers and
  fields, each method proved against its step. What a run delivers, and what becomes of the socket, the
  timer, the buffers and the bytes sent, is described once more without looking at any state, from the
  events of the run alone, and the two descriptions are proved equal.
- **Endpoints as text.** The two grammars as greedy rules without backtracking, the port parser with
  its 32-bit overflow checks, the printer with `::` compression, a declarative grammar (numerals digit by
  digit, addresses as in RFC 4291) that the rules are proved to accept exactly, and the recommended form
  of RFC 5952, which the printer is proved to print exactly. The round trip is proved for every IPv4 and
  IPv6 endpoint.
- **Mime lookups.** By the reversed path and by the extension, with the attribute that is kept when the
  end of the input is missed, and the exact condition under which the two agree.
- **The id tagged container.** Both indices are concrete: one sorted by id, one in insertion order. They
  are proved to agree with an abstract list under every operation, with the change counter of
  `Incarnated`. The author's open question about `erase` (IdTaggedContainer.hpp:227-231) is answered:
  the returned iterator does stand on the old successor.
- **Counting mutex guards.** Any number of threads, interleaved, with the increment split into its load
  and its store; and the counterexample for giving the mutex back first.
- **`xorshf96`** on words of any width, and the **limited stream reader**.

What the code does differently from its documentation, and the model follows the code:

- TimedConnect.hpp:155 says that the socket is closed on error. No completion closes it, only the timer
  and the owner do. When an operation fails, the socket is as the last event left it that opened or closed
  it, or as it was at the start (`TimedConnect.ClosedOnErrorIff`, for every error and every run); a
  refused connect and a failed resolve leave it open (`TimedConnect.RefusedLeavesSocketOpen`,
  `TimedConnect.UnresolvedLeavesSocketOpen`).
- SOCKS4.hpp:118 sets the timeout for the entire operation, but a write that the timeout aborts is
  reported with the raw error and not as timed_out. `Socks4Runs.TimeoutIsReportedIff` says exactly when
  a timeout is reported as one, and `Socks4Runs.AbortedWriteIsReachable` is a run in which it is not.
- String.hpp:63-66 promises the default mime type for unrecognized endings. The lookup by extension
  gives the type of the longest table key that begins the extension (`MimeTypes.ByExtensionIs`,
  `MimeTypes.BeginningDecides`): "a.jsx" is JavaScript (`MimeTypes.LookupsDisagree`).
- Random.cpp:91 claims a period of 2^96-1. With 32-bit words that is proved as a bound: every run is
  purely periodic and repeats after at most that many steps.

Assumptions about what is not in the repository: one io thread runs the handlers; closing a socket aborts
its pending transfer or connect with operation_aborted and does not touch a handler already queued;
the handshake begins on an open socket (SOCKS4.hpp:226);
the resolver gives addresses of the family it was asked for; cancelling a timer does not recall an expiry already queued; a transfer on a closed socket fails; a range
connect with no endpoint fails with not_found and opens the socket for each attempt. Address texts follow
`inet_pton` and `inet_ntop`: four decimal numbers without superfluous zeros, section 2.2 of RFC 4291, and
sections 4 and 5 of RFC 5952 with a dotted tail for `::ffff:0:0/96`, and for `::/96` unless the seventh group
is zero too. Path extensions follow version 3 of Boost.Filesystem on POSIX.

`dafny verify dfyconfig.toml` checks the whole project.

## Model

| member | source | states |
|---|---|---|
| Socks4.EncodeIsConnect | SOCKS4.hpp:110-116 | A SOCKS4 server reads the request back as CONNECT to the target port and address with user id "Moose", and takes nothing that follows it on the stream |
| Socks4Runs.OnePlace | SOCKS4.hpp:65-220 | In every reachable world exactly one of initial call, pending operation, queued handler, delivered completion; the assertions of the handlers hold whenever one can run |
| Socks4Runs.CompletionIsVerdict | SOCKS4.hpp:79-219 | What an event delivers, and that it delivers at most once per run, is determined by the events of the run alone |
| Socks4Runs.SuccessIff | SOCKS4.hpp:137-219 | Success on an open socket if and only if resolve, write and read succeeded, nothing closed the socket before the last handler, and the reply starts with 0x00 0x5a |
| Socks4Runs.SuccessOnClosedSocketIff | SOCKS4.hpp:192-218 | Success on a closed socket if and only if a complete reply starts with 0x00 and a status outside 0x5a..0x5d |
| Socks4Runs.WrongProtocolLeavesSocketOpen | SOCKS4.hpp:186-208 | protocol_not_supported exactly for a nonzero first byte; the socket stays open exactly then or for status 0x5a |
| Socks4Runs.RefusalIsReported | SOCKS4.hpp:195-208 | The three refusals of the protocol close the socket and are reported as interrupted and operation_not_permitted |
| Socks4Runs.WriteErrorIsRaw | SOCKS4.hpp:142-147 | A write error is passed on unchanged and leaves the timer as it is |
| Socks4Runs.TimeoutIsReportedIff | SOCKS4.hpp:118-184 | After a close the handler of a transfer reports timed_out exactly for a queued success, for that error itself, or for an aborted read; an aborted write is not reported as timed_out |
| Socks4Runs.AbortedWriteIsReachable | SOCKS4.hpp:119-147 | For every target there is a run in which the timeout aborts the write and the handshake reports operation_aborted |
| Socks4Runs.ClosedNeverSucceeds | SOCKS4.hpp:118-184 | After the timer or the owner closed the socket no handler reports success, and a success already queued becomes timed_out |
| Socks4Runs.EveryReplyIsReachable | SOCKS4.hpp:65-193 | For every target and every reply of eight bytes there is a run in which that reply is complete |
| Socks4Runs.CompletesInBoundedSteps | SOCKS4.hpp:65-219 | At most four calls per run; until completion the network owes an answer or the next call is enabled |
| Socks4Runs.SocketIsOpenIff | SOCKS4.hpp:120-219 | In every reachable world, after completion too, the socket is closed exactly if its owner or an expired timer closed it or a complete reply of the protocol did not grant the request; the callback of a cancelled wait changes nothing else |
| Socks4Runs.GrantedStaysOpen | SOCKS4.hpp:120-218 | For every target there is a run that is granted and whose connection is open after the callback of the cancelled timer |
| Socks4Runs.BuffersAreHeldIff | SOCKS4.hpp:210-218 | The buffers are given back exactly after a complete reply with first byte zero, and never while an operation is pending or a handler queued |
| Socks4Runs.TimerAfterCompletion | SOCKS4.hpp:118-167 | After completion the timer is armed exactly if the write was last and the timer had not expired, never after a failed resolve; from then on only the owner or an expired timer closes the socket, and after the read only by an expiry that happened before |
| Socks4Runs.WireIsConnect | SOCKS4.hpp:129-132 | The bytes sent are as many of the first bytes of one request as the socket took, and after a successful write exactly the 14 bytes that decode to the target |
| Socks4Runs.HostNotFoundIff | SOCKS4.hpp:91-108 | After a successful resolve, host_not_found exactly if there is no IPv4 address; otherwise the timer is armed and the write begins |
| Socks4Runs.FirstV4IsFirst | SOCKS4.hpp:94-102 | The address used is the first IPv4 address of the results |
| Socks4Runs.FragmentationIsInvisible | SOCKS4.hpp:156-161 | However the reply is split into fragments, the world after them is the same |
| Socks4Handshake.Handshake.constructor | SOCKS4.hpp:260-284 | A fresh handshake with buffers of 14 and 8 bytes in its initial state |
| Socks4Handshake.Handshake.Begin | SOCKS4.hpp:65-75 | The initiating call performs the initial step |
| Socks4Handshake.Handshake.HandleResolved | SOCKS4.hpp:77-133 | The loop over the results and the rest of the handler perform the resolve step |
| Socks4Handshake.Handshake.FillRequest | SOCKS4.hpp:110-116 | Every byte of the request buffer is written, none outside, and it is the encoded request |
| Socks4Handshake.Handshake.HandleTransferred | SOCKS4.hpp:135-220 | The handler of the write and of the read performs the transfer step |
| Socks4Handshake.Handshake.HandleTimer | SOCKS4.hpp:120-127 | The timer callback ignores a cancelled wait and closes the socket otherwise |
| Socks4Handshake.Handshake.Receive | SOCKS4.hpp:156-161 | A fragment is stored behind the bytes already received |
| Socks4Handshake.Play | SOCKS4.hpp:65-220 | The object, given any run, arrives at the world of that run without failing an assertion |
| TimedConnect.OnePlaceAndTimer | TimedConnect.hpp:70-138 | Exactly one of initial call, pending operation, queued handler, completion; the timer is never armed after completion |
| TimedConnect.CompletionIsVerdict | TimedConnect.hpp:70-138 | What is delivered, at most once, is determined by the protocol and the events of the run |
| TimedConnect.SuccessIff | TimedConnect.hpp:110-137 | Success if and only if the connect succeeded and nothing closed the socket since it began; the socket is then open |
| TimedConnect.ClosedNeverSucceeds | TimedConnect.hpp:93-127 | A close during the connect rules success out, even one already queued, and is reported as timed_out |
| TimedConnect.UnknownProtocol | TimedConnect.hpp:73-82 | Protocols other than 0, 4 and 6 fail in the initiating call, which starts nothing |
| TimedConnect.SocketIsOpened | TimedConnect.hpp:94-110 | After any run the socket is open or closed as the last event says that opened it (a resolve with results) or closed it |
| TimedConnect.ClosedOnErrorIff | TimedConnect.hpp:80-127 | Whatever the error, the socket is closed then exactly if the last event that opened or closed it, or else its initial state, left it closed; after a connect, exactly if something closed it since |
| TimedConnect.RefusedLeavesSocketOpen | TimedConnect.hpp:110-120 | A refused connect completes with the error on an open socket |
| TimedConnect.TimeoutIsSet | TimedConnect.hpp:93-110 | The timer is idle before the connect, and from then on armed until it expires or the operation completes |
| TimedConnect.TimeoutIsReachable | TimedConnect.hpp:93-117 | For every protocol and every endpoint that fits there is a run in which the timeout closes the socket and timed_out is reported |
| TimedConnect.ResolvesFamily | TimedConnect.hpp:73-78 | The resolver is asked for any, IPv4 or IPv6 addresses by the protocol |
| TimedConnect.AttemptsInOrder | TimedConnect.hpp:103-108 | The endpoints left are the results without as many of the first as attempts failed, and all of the family of the protocol |
| TimedConnect.ConnectEndsWith | TimedConnect.hpp:106-137 | The connect ends with the first success, the failure of the last endpoint, not_found or an abort, and what is delivered follows from that |
| TimedConnect.UnresolvedLeavesSocketOpen | TimedConnect.hpp:85-88 | A failed resolve completes with the error and leaves an open socket open |
| TimedConnect.StringsOutliveOperations | TimedConnect.hpp:133-137 | Host name and port are held while an operation is pending or a handler queued, and given back exactly on success |
| TimedConnect.CompletesInBoundedSteps | TimedConnect.hpp:70-138 | At most three calls; until completion the network owes an answer or the coroutine can be entered |
| TimedConnect.LateCloseExpiredBefore | TimedConnect.hpp:93-110 | A timer callback that can still close the socket had expired before completion |
| TimedConnectOperation.Operation.Reenter | TimedConnect.hpp:57-139 | The coroutine body performs the step of its current position |
| TimedConnectOperation.Operation.HandleTimer | TimedConnect.hpp:94-101 | The timer callback ignores a cancelled wait and closes the socket otherwise |
| TimedConnectOperation.Operation.Handle | TimedConnect.hpp:57-139 | Every event of a run is performed in place |
| TimedConnectOperation.Play | TimedConnect.hpp:57-139 | The object, given any run, arrives at the world of that run, completed at most once, with its socket as the run's events say |
| AddressText.V4Text | String.cpp:36-45 | A text is accepted as an IPv4 address if and only if it is the printed form of that address |
| AddressText.V6RoundTrip | String.cpp:52-59 | Every printed IPv6 address, compressed or not, dotted or not, is read back |
| AddressText.V4Iff | String.cpp:36-45 | A text is accepted as an IPv4 address if and only if it is four numerals of at most three digits without superfluous zeros, for those bytes |
| AddressText.V6Iff | String.cpp:52-59 | A text is accepted as an IPv6 address if and only if it has a form of section 2.2 of RFC 4291: groups of one to four digits in either case, at most one "::" for one or more zero groups, perhaps a dotted tail |
| AddressSpelling.CaseIsIgnored | String.cpp:52-59 | Texts that differ in the case of hexadecimal digits are read alike |
| AddressSpelling.ZeroIsIgnored | String.cpp:52-59 | A zero in front of a group of fewer than four digits changes nothing |
| AddressText.PrintV6Iff | String.cpp:125-130 | A text is what is printed for an address if and only if it has the form of sections 4 and 5 of RFC 5952: shortest groups in lower case, the first of the longest runs of two or more zero groups, and the whole of it, as "::", and a dotted tail for the addresses that have one |
| AddressText.CompressesIff | String.cpp:125-130 | "::" is printed exactly if two zero groups are next to each other |
| AddressText.DottedIff | String.cpp:125-130 | Dots are printed exactly for the addresses ::ffff:0:0/96 and, as numbers, from 2^16 to 2^32-1 |
| Endpoints.PortIff | String.cpp:149-174 | The port rule takes exactly the nonempty digit strings of value below 2^32, leading zeros included |
| Endpoints.ExtractUint | String.cpp:86-109 | Consuming digits in place with overflow checks decides the port rule, and every value on the way has 32 bits |
| Endpoints.AcceptsIff | String.cpp:135-182 | The greedy grammars accept exactly the declarative one; the port is the numeral modulo 2^16 |
| Endpoints.SplitIsUnique | String.cpp:143-149 | A text is an endpoint in at most one way |
| Endpoints.GoogleIff | String.cpp:72-117 | The google grammar accepts exactly "ipv4:" or "ipv6:" before a plain text of that family, with the same endpoint |
| Endpoints.EndpointSlot.FromGoogle | String.cpp:99-117 | Both variables are written on success, neither on error |
| Endpoints.EndpointToStringIff | String.cpp:125-130 | A text is what is printed for an endpoint if and only if it is the address in that form, in brackets for IPv6, a colon and the shortest numeral of the port |
| Endpoints.LoopbackIsPrinted | String.cpp:125-130 | The loopback address is printed as "::1" |
| Endpoints.RoundTrip | String.cpp:125-182 | Every endpoint is read back from its printed form |
| Endpoints.PrintNormalizes | String.cpp:125-182 | Parse, print, parse equals parse; accepted texts print alike exactly if they mean the same endpoint |
| Itoa.Itoa | String.cpp:184-190 | At most 20 digits, no superfluous zero, and digit by digit the number |
| Itoa.StringSink.Generate | String.cpp:187-188 | The digits are appended to the sink most significant first |
| Numerals.NumeralIff | String.cpp:86-109 | Digits have a value if and only if they are, place by place, the digits of that value |
| Numerals.PrintIff | String.cpp:184-190 | A text is the printed numeral of a number if and only if it is its shortest numeral, in lower case |
| Numerals.PrintRoundTrip | String.cpp:184-190 | A printed numeral evaluates to its number and starts with zero only for zero |
| MimeTypes.ReversedKeysArePrefixFree | String.cpp:198-226 | No reversed dotted key begins another |
| MimeTypes.AtMostOneKey | String.cpp:228-250 | A path ends in at most one dotted key, regardless of case |
| MimeTypes.ByPathIs | String.cpp:243-250 | The lookup by path gives the type of the key it ends in, or the default |
| MimeTypes.ExtensionIff | String.cpp:300-303 | The extension begins with the last dot of a last component without a slash that is not "." or ".."; there is none otherwise |
| MimeTypes.CaseIsIgnored | String.cpp:238-310 | Paths that differ in the case of letters have the same types |
| MimeTypes.EndIsExtension | String.cpp:298-308 | A path ends in a dotted key exactly if that key is its extension |
| MimeTypes.ByExtensionIs | String.cpp:300-311 | The lookup by extension gives the type of the longest key that begins the extension, and the default exactly if no key begins it |
| MimeTypes.BeginningDecides | String.cpp:243-312 | If the longest key that begins the extension does not end it, the lookup by extension still gives its type, and the lookup by path the default |
| MimeTypes.LookupsAgreeIff | String.cpp:243-312 | The lookups agree exactly if there is no extension, the extension is a key, or no key begins it |
| MimeTypes.LookupsDisagree | String.cpp:243-312 | "a.jsx" is application/javascript to the lookup by extension and unknown to the lookup by path |
| ContainerModel.SameIdsIff | IdTaggedContainer.hpp:136-153 | Among unique ids equal sizes and one-directional membership mean equal id sets |
| ContainerModel.EffectiveIff | IdTaggedContainer.hpp:167-248 | An operation counts as a change exactly if it changes the list or is a replacement |
| ContainerModel.OperationsAre | IdTaggedContainer.hpp:167-248 | Insert appends if the id is absent, remove filters the id out, replace does so and appends, erase takes one position out |
| ContainerModel.KeepIsFilter | IdTaggedContainer.hpp:167-248 | Filtering keeps the order and decides each object by itself |
| ContainerModel.IdsStayUnique | IdTaggedContainer.hpp:167-248 | Ids are unique after any sequence of operations |
| ContainerModel.CounterCountsChanges | IdTaggedContainer.hpp:167-248 | The counter goes up by the number of effective operations, a replacement counting once |
| ContainerModel.NoChangeKeepsList | IdTaggedContainer.hpp:167-248 | Without an effective operation the positional view is identical |
| ContainerModel.ChangedIff | Carne.hpp:81-92 | changed tells whether there was an effective operation exactly if the counter did not come back to the known value or below |
| ContainerModel.ChangedBelowWrap | Carne.hpp:81-92 | Below 2^64 changes changed is exact, and false means an identical list |
| ContainerModel.WrapHidesChange | Carne.hpp:81-92 | At the top of the range a change is missed |
| Counters.PlusIsModulo | Carne.hpp:76-92 | Any number of increments is addition modulo 2^64 |
| IdTaggedContainer.Container.Insert | IdTaggedContainer.hpp:167-182 | Appends, counts and returns true exactly if the id is absent, otherwise changes nothing; null is an internal error; both indices keep agreeing |
| IdTaggedContainer.Container.Replace | IdTaggedContainer.hpp:192-202 | Drops the object with the id and appends the new one |
| IdTaggedContainer.Container.Remove | IdTaggedContainer.hpp:209-218 | Takes the object with the id out, the others keep their order |
| IdTaggedContainer.Container.Erase | IdTaggedContainer.hpp:221-240 | Takes the object at the position out of both indices and returns an iterator to its old successor |
| IdTaggedContainer.Container.Clear | IdTaggedContainer.hpp:242-248 | Empties both indices and counts only if there was something |
| IdTaggedContainer.Container.Get | IdTaggedContainer.hpp:264-275 | The lookup by id finds exactly what a scan of the positional view finds |
| IdTaggedContainer.Container.Has | IdTaggedContainer.hpp:251-262 | True exactly if a scan of the positional view finds the id |
| IdTaggedContainer.Container.At | IdTaggedContainer.hpp:283-302 | The object at an index of the positional view, or an internal error beyond it |
| IdTaggedContainer.Container.Equals | IdTaggedContainer.hpp:136-153 | True exactly if both containers have the same id set, regardless of order |
| IdTaggedContainer.Container.IdsInContainer | IdTaggedContainer.hpp:341-349 | The set of ids |
| IdTaggedContainer.Iterator.Dereference | IdTaggedContainer.hpp:83-87 | The object at the index, or an internal error |
| IdTaggedContainer.PerformAll | IdTaggedContainer.hpp:167-248 | After any sequence of operations both indices agree on the list these operations make, the counter has counted the effective ones, and below 2^64 changes a counter read before tells whether there was one |
| IdTaggedContainer.EraseWhere | IdTaggedContainer.hpp:220-240 | Erasing while iterating visits each object once, leaves exactly the others in order and raises the counter by the number erased |
| MutexedModel.MutualExclusion | Mutexed.hpp:28-41 | Two threads never hold the mutex or increment at the same time |
| MutexedModel.EveryReleaseCounts | Mutexed.hpp:28-80 | In every interleaving the counter is one plus the releases in write mode, plus one that has counted and still holds the mutex, modulo 2^64 |
| MutexedModel.OwnerCanRelease | Mutexed.hpp:36-41 | The thread that holds the mutex can always go on to release it, and no other thread can act |
| MutexedModel.FreeCanBeAcquired | Mutexed.hpp:57-65 | A free mutex can be acquired by every thread in either mode |
| MutexedModel.ZeroMarksOverflow | Mutexed.hpp:73-74 | Zero is read exactly after 2^64-1 releases, modulo 2^64 |
| MutexedModel.OtherOrderLosesUpdates | Mutexed.hpp:37-41 | If the mutex were given back before counting, two releases could count as one |
| Mutexed.MutexedObject.AcquireReadLock | Mutexed.hpp:57-60 | The guard starts in read mode |
| Mutexed.MutexedObject.AcquireWriteLock | Mutexed.hpp:62-65 | The guard starts in write mode |
| Mutexed.ScopedLock.Upgrade | Mutexed.hpp:44-46 | The guard is in write mode from then on |
| Mutexed.ScopedLock.Downgrade | Mutexed.hpp:49-51 | The guard is in read mode from then on |
| Mutexed.ScopedLock.Release | Mutexed.hpp:37-41 | Counts one release exactly if the guard is in write mode at release |
| Mutexed.Play | Mutexed.hpp:28-80 | Any interleaving played on the object and the threads' guards: each guard that is not released belongs to the owner of the mutex, and with the mutex free the counter is one plus the releases in write mode |
| Xorshf96.Generator.Next | Random.cpp:91-104 | The assignments in place perform the step and return the third word |
| Xorshf96.Generator.constructor | Random.cpp:87-89 | The three words are the seed's numbers, and not the zero state |
| Xorshf96.Draw | Random.cpp:91-104 | Called any number of times, the object returns the third words of the run in order |
| Xorshf96.StepOnBits | Random.cpp:94-101 | Every bit of the new word is the XOR of the bits of the first word at the distances that shifting by 16, 5 and 1 makes, and of the other two |
| Xorshf96.StepInverse | Random.cpp:94-101 | The step has an explicit inverse on both sides |
| Xorshf96.StepIsLinear | Random.cpp:94-101 | The step is linear under XOR |
| Xorshf96.ZeroIsFixed | Random.cpp:94-101 | Zero is a fixed point |
| Xorshf96.NeverZero | Random.cpp:87-104 | No run from another state reaches zero |
| Xorshf96.RunsArePeriodic | Random.cpp:87-104 | Every run returns to its first state and repeats from there, and so do the outputs, after at most 2^(3w)-1 steps for words of w bits |
| LimitedReader.Reader.Read | AsioHelpers.cpp:19-42 | Takes the least of limit, data and size from the front of the buffer, or returns -1 and changes nothing |
| LimitedReader.ReadToEnd | AsioHelpers.cpp:19-42 | Reading until -1 yields the lesser of limit and data, in order |
| LimitedReader.Perform | AsioHelpers.cpp:13-42 | On the objects: what one reader after another takes out of a growing buffer, and what is left, is everything appended, in order |
| LimitedReader.Conservation | AsioHelpers.cpp:13-42 | Over readers used one after another with appends in between, output plus rest is everything appended, in order, and no reader exceeds its limit |

## Left out

- Real sockets, resolvers, executors and clocks: they are the events of a run, and the duration of timeouts is not modelled.
- Intermediate handlers of a composed read or write: a fragment is taken in one step, so a close between two fragments always aborts the transfer with operation_aborted.
- Logging, asserts, error formatting, home directories, file system helpers and pimpl helpers: platform glue.
- urand, ruuid, the seeding of generators and thread ids: library generators; the quality of randomness is not provable here.
- The period of xorshf96: pure periodicity and the bound of 2^96-1 are proved, not that the period reaches it.
- Incarnated with a parent: its setters do not compile when instantiated (Carne.hpp:43-45, Carne.hpp:62-66).
- Moving containers: the contents are swapped without the counter (IdTaggedContainer.hpp:119-129), so change counting is stated for runs without moves.
- Moved-from or manually unlocked guards: their destructor would increment without holding the mutex (Mutexed.hpp:36-41).
- Reading a guarded counter without the mutex (Mutexed.hpp:67-70): the model reads it between steps.
- IPv6 scope ids: the character set of the grammar has no percent sign.
- from_google_ep without a port, truncate and mime_type_is_text: only easy claims.
- Negative stream limits: LimitedReader.Reader takes a limit of zero or more, as its users do.
- IdTaggedContainer.Container.Erase: iterators past the end or into another container, and containers of 2^64 objects, are excluded as preconditions.
