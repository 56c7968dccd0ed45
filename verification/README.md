# Server-SSH: a verified model

This project models the parts of Server-SSH whose correctness is not visible from any one
function, and proves properties of them for all inputs and all runs:

- **Key exchange.** Server and client agree on two numbers by Diffie-Hellman (the shared
  value of section 2.1.1 of RFC 2631), with a recursive power on 64-bit words, delimited
  decimal texts, and key and IV buffers cut out of repeated decimals. `CText` holds the C
  library functions involved, `ModularPower` the power, `KeyMessages` the two texts and the
  code of both `Preparing_numeral_keys`, `KeyDerivation` the code of `Make_keys`, and
  `Handshake` the two processes under every schedule, over datagrams and over a stream.
  That P is prime is neither assumed nor needed.
- **Admin hand-off.** `Handoff` is a transition system of the chain of forked admins, the
  connection handler and the broadcaster, with their pending signals and the ports they
  hold; `SignalWords` is the packing of an address into a signal, `PortSearch` the bind loop.
- **Command session.** `Commands` is the text code of the session on its buffers, `Session`
  the transition system of client and server over two datagram queues, `SessionScripts`
  what each typed line leads to, `SessionPeers` the two programs as objects that refine it.
  The loop around the parser is that of
  `old_src/src_server/administraitors.c`; the handlers, buffer sizes and `Do_task` are the
  current ones.
- **Old client.** `OldClient` is the status machine with its prompt loop, `SavedSession` the
  line it saves and re-reads.

Assumptions of the transition systems: channels are ordered and lossless and every message
of the key exchange is read whole; a datagram holds 65507 bytes, and a longer send fails; `fork`
succeeds and signal handlers are installed before the first signal; where it is said so,
queued SIGUSR1 values are kept in order. `rand()` yields less than 2^31, so the reduction of
the secrets modulo 2^32 - 1 changes nothing; the lemmas hold for all natural secrets anyway.

What the code does where it fails is modelled, not excluded, and leads to these results:

- The power returns 1 for exponent 0 even when the modulus is 1; `SpeedIsPower` says exactly
  when it is the residue. On 64-bit words no product overflows, whatever the base below the
  modulus, if and only if the modulus is at most 2^32: `NeverOverflowsIff`. The value is
  right for every base below the modulus and every exponent if and only if the modulus is at
  most 2^32 or a divisor of 2^64 (and not 1): `PowersRightIff`. The client reads its modulus
  as an `int`, and its powers are right exactly if that is at least 2: `ReadPowersRight`;
  `NegativeModulus` is a greeting for which they are not.
- `atoi` carries a printed `size_t` exactly below 2^31 (and, by saturation and sign
  extension, 2^64 - 1): `NumberSurvives`.
- The key buffer determines two numbers of given digit counts exactly if the counts add up
  to at most 32: `KeyInjectiveIff`. Without fixed counts two pairs of together
  at most 32 digits share a key exactly if their concatenated decimals w and x satisfy
  wx = xw and are equally long or both at least 8 long: `SameKeyIff`; and key and IV
  exactly if besides the concatenations in the other order commute: `SameKeyAndIvIff`.
- SIGUSR1 is a standard signal, which Linux does not queue. Over a whole run the
  flow of publications is exact if and only if no event drops one (`FlowExactIff`), and once
  drained the advertised port is that of the newest publication that was not dropped, hence
  the newest one's exactly if that one was dropped neither at its publication nor at its
  forwarding (`AdvertisedIsNewestKept`). `MergingLosesNewest` is a run in which it was.
- However the ports of other programs come and go, a search ends within 42080 tries
  (`SearchesEnd`), and a port that stays free bounds it (`FreePortBoundsSearch`).
- When no port above 23456 is free the search wraps to port 0, which the kernel replaces by
  some free port while 0 is published: `ClaimPort`.
- `Do_usual` has room for 100 argument pointers, and a copy whose first datagram does not
  fit has its size taken for a command. The server crashes, or has no defined result, if and
  only if a line typed is a command of at most 65504 characters with more than 98 spaces
  behind its first one, or a copy to a target of more than 65498 characters, and its
  datagram was taken: `CrashIffTyped`. In the second case alone a datagram is mistaken:
  `NeverMistaken`.
- When a command cannot be started, the forked child returns from `Do_usual` and goes on as
  the server without having answered; when a program never ends, or prints more than the
  pipe takes (65536 bytes, the Linux default), the server waits for it for ever; output
  longer than a datagram is not sent; nor is a request or a file longer than that. `StuckIff`
  shows that these and the crashes are all the ways in which the session stops making
  progress, and `CopyCompletesIff` that a copy to a target that opens completes exactly if
  the file fits into one datagram, and leaves the target empty otherwise.
- A command typed without arguments is started with one extra, empty argument: `BareCommand`.
- The old client reads its saved line with one read into 1024 bytes. Login, password and key
  come back exactly, and the IV with the newline, if and only if the line has 33 to 1023
  bytes and the first three hold no '#': `SavedRoundTrip`. The request made of it fits its
  buffer up to a line of 1000 bytes: `LoginThenReconnect`.
- The comment at `client/src/encrypting.c:24` names the greeting's fields in another order
  than the code uses; the model follows the code.

Every `.dfy` file holds one module named like the file; `dafny verify dfyconfig.toml` checks
them all.

## Model

| member | source | states |
|---|---|---|
| CText.IndexOfFirst | server/src/encrypting.c:44-45 | the index found by a `strchr` search is the first one with the character and the only one with that property |
| CText.StrChrInPadded | client/src/encrypting.c:28-31 | `strchr` in a zeroed buffer finds what a search in the received message finds, and nothing past its end |
| CText.ValueOfDecimal | server/src/encrypting.c:74 | the digits that `%zu` prints denote the number printed |
| CText.DecimalInjective | server/src/encrypting.c:74-75 | two numbers print alike only if they are equal |
| CText.AtoiOfDecimal | server/src/encrypting.c:48-49 | `atoi` on a printed number followed by a non-digit saturates to `long` and keeps the low 32 bits as a signed value |
| CText.AtoiSkips | server/src/encrypting.c:48-49 | white space of all six kinds is skipped and a sign taken into account |
| CText.TextOfIs | server/src/encrypting.c:40 | the C string of received bytes is what lies before the first NUL |
| CText.AtoiRoundTrip | server/src/encrypting.c:48-49 | a printed number survives `atoi`, whatever delimiter follows, if and only if it is below 2^31 |
| ModularPower.SpeedIsPower | server/src/encrypting.c:59-68 | square-and-multiply equals g^x mod p if and only if p is at least 2 or x is positive |
| ModularPower.WordSpeedExact | server/src/encrypting.c:59-68 | on 64-bit words, for 2 <= p <= 2^32 and g <= 2^32, no product reaches 2^64 and the value is g^x mod p |
| ModularPower.WordSpeedNeverWraps | client/src/encrypting.c:67-76 | under the same bounds the wrapping recursion takes the same values as the integer one, all below p |
| ModularPower.NeverOverflowsIff | server/src/encrypting.c:59-68 | for every `size_t` modulus of at least 2: no product overflows, for any base below it and any exponent, if and only if it is at most 2^32 |
| ModularPower.PowersRightIff | server/src/encrypting.c:59-68 | for every nonzero `size_t` modulus: the value is the modular power for every base below it and every exponent if and only if the modulus is at least 2 and at most 2^32 or a divisor of 2^64 |
| ModularPower.OverflowGivesWrongPower | server/src/encrypting.c:67 | in particular for every odd modulus above 2^32 the square of p - 1 comes out wrong |
| ModularPower.WordSpeedWrapsAbove | server/src/encrypting.c:67 | the first such modulus, 2^32 + 1: the square wraps to 0 where the residue is 1 |
| ModularPower.PowerOfPower | server/src/encrypting.c:53-54 | a power of a power is the power to the product of the exponents |
| ModularPower.PowerOfResidue | server/src/encrypting.c:53-54 | raising a residue instead of the number gives the same residue |
| ModularPower.Agreement | server/src/encrypting.c:14-15 | raising the other side's public value gives both sides g^(a*b) mod p, for every modulus of at least 2 |
| ModularPower.CallsOfNumeral | server/src/encrypting.c:59-68 | a call with positive exponent makes exactly as many calls as its binary numeral has digits plus ones |
| ModularPower.CallsBelow2To31 | server/src/encrypting.c:9-15 | exponents below 2^31 take at most 62 calls, and only 2^31 - 1 takes 62 |
| KeyMessages.NumberSurvives | client/src/encrypting.c:36-39 | a printed `size_t` read with `atoi` into a `size_t` is unchanged exactly below 2^31 or at 2^64 - 1 |
| KeyMessages.TextsSent | server/src/encrypting.c:22 | the two texts, character for character, with 20999999 and 7 in the greeting |
| KeyMessages.GreetingRoundTrip | client/src/encrypting.c:28-39 | the client's chain of searches recovers P, G, A1, A2 from the greeting if and only if each of them survives `atoi`, head text and newline included |
| KeyMessages.ReplyRoundTrip | server/src/encrypting.c:44-49 | the server recovers B1 and B2 from the reply under the same condition |
| KeyMessages.ReadPowersRight | client/src/encrypting.c:36-51 | whatever greeting the client reads, its powers are right, for every base below the modulus and every exponent, if and only if the modulus read is an `int` of at least 2 |
| KeyMessages.NegativeModulus | client/src/encrypting.c:36-37 | from a greeting whose P field is "-1" it reads 2^64 - 1, with which they are not |
| KeyMessages.NoResult | client/src/encrypting.c:28-51 | a side comes to no result exactly without the delimiters in their order, and the client also with a modulus of 0 and a positive secret |
| KeyMessages.HonestPower | server/src/encrypting.c:53-54 | every power of an honest exchange is the modular power, below P, with no product reaching 2^64 |
| KeyMessages.HonestClient | client/src/encrypting.c:26-55 | from an honest greeting in its buffer the client answers its public values and computes g^(a*b) mod P twice |
| KeyMessages.HonestServer | server/src/encrypting.c:43-54 | from that answer in its buffer the server computes the same two numbers |
| KeyMessages.ServerGreets | server/src/encrypting.c:9-29 | sends the greeting with P, G and g^a mod P for both secrets, printed through its buffer |
| KeyMessages.ServerFinishes | server/src/encrypting.c:34-54 | writes both numbers computed from the received text, or runs into the missing delimiter |
| KeyMessages.ClientAnswers | client/src/encrypting.c:7-59 | sends the reply and writes both numbers computed from the received text, or runs into the missing delimiter or the zero modulus |
| KeyDerivation.StrCat | server/src/encrypting.c:80-81 | replaces the buffer from its first NUL on by the text and a terminator and leaves the rest |
| KeyDerivation.MakeKeys | server/src/encrypting.c:70-93 | leaves in each buffer the concatenation with the repeated decimals, cut to 32 and 16 bytes and zeroed behind |
| KeyDerivation.FreshBuffers | client/src/connection.c:18-20 | in freshly zeroed buffers that is exactly the first 32 and 16 characters of (k1k2)^4 and (k2k1)^4 and NULs |
| KeyDerivation.KeyShape | server/src/encrypting.c:74-89 | the key text has period k1-length plus k2-length, and key[j + k1-length] = IV[j] wherever both are retained |
| KeyDerivation.Shifted | server/src/encrypting.c:74-75 | k1 followed by the IV text is the key text followed by k1 |
| KeyDerivation.WordsFit | server/src/encrypting.c:71-75 | for all `size_t` values the texts fit their buffers |
| KeyDerivation.DecimalLength | server/src/encrypting.c:74-75 | a number prints in at most d digits if and only if it is below 10^d |
| KeyDerivation.KeyInjectiveIff | server/src/encrypting.c:70-93 | among `size_t` pairs of m and n digits the key buffer determines the pair if and only if m + n <= 32 |
| KeyDerivation.KeyInjectiveBelow10To8 | server/src/encrypting.c:70-93 | a pair of numbers below 10^8 is determined by its key and its digit counts |
| KeyDerivation.KeyInjective | server/src/encrypting.c:83-85 | equal key buffers of pairs with equal digit counts, together at most 32, come from equal pairs |
| KeyDerivation.KeyCollision | server/src/encrypting.c:83-85 | beyond 32 digits two pairs that differ in the last digit share a key buffer |
| KeyDerivation.SameKeyIff | server/src/encrypting.c:74-89 | two pairs of together at most 32 digits give equal key buffers if and only if their concatenated decimals commute and are equally long or both at least 8 long |
| KeyDerivation.SameKeyBelow10To8 | server/src/encrypting.c:74-89 | that is the condition among all pairs of numbers below 10^8 |
| KeyDerivation.SameKeyAndIvIff | server/src/encrypting.c:74-89 | they give equal key and IV buffers if and only if the concatenations in the other order commute as well |
| KeyDerivation.LengthsMatter | server/src/encrypting.c:74-89 | an instance: the pairs (1, 11) and (11, 1) give equal keys and equal IVs |
| Handshake.SendThenReceive | server/src/encrypting.c:25-38 | one message sent over an empty channel of either kind is received whole and leaves the channel empty |
| Handshake.ReceiveIs | client/src/encrypting.c:9-14 | a receive takes a datagram or what the stream holds, cut to 65536 characters; what is cut off a datagram is lost, off a stream it stays |
| Handshake.MessageTaken | server/src/encrypting.c:31-54 | whatever message arrives, a side goes on if and only if it leaves room for its terminator and yields a result |
| Handshake.StageStep | server/src/encrypting.c:3-57 | in each of the seven states of an honest exchange exactly one side can move, and it moves to the next state |
| Handshake.RunIsStage | client/src/encrypting.c:3-65 | every schedule of the two processes leads to one of these seven states |
| Handshake.BothSidesAgree | server/src/encrypting.c:3-93 | for all secrets, both transports and every schedule nobody crashes, and when both are ready they hold equal K1 and K2, namely 7^(a*b) mod 20999999, and equal buffers: the key the first 32 characters of (k1k2)^4, the IV the first 16 of (k2k1)^4, then NULs up to 65536 |
| Handshake.MessagesUnderWay | server/src/encrypting.c:22-29 | in every state of an honest exchange at most one message is under way, and it is the hail, the greeting or the reply with the public values in it |
| Handshake.SixFairRoundsFinish | client/src/connection.c:3-24 | six rounds in which each side gets a turn complete the exchange on both sides |
| SignalWords.BitForms | server/src/signals_operations.c:6-16 | on machine words the masks, shifts and joins of the source are the remainders, quotients and sums of the model |
| SignalWords.NetworkOrder | server/src/signals_operations.c:6-16 | on hosts of either byte order, the result of `htonl` and `htons` lies in memory with the highest octet of the number first |
| SignalWords.StoredPort | server/src/administraitors.c:42 | port 23457 is stored as 0xA15B on a little-endian host and as itself on a big-endian one |
| SignalWords.WordCarries | server/src/signals_operations.c:12-19 | the word holds the number of the address in its low 32 bits and that of the port in the 16 above, and the answer prints that port |
| SignalWords.SwapsAreInvolutions | server/src/signals_operations.c:6-16 | `ntohl` undoes `htonl` and `ntohs` undoes `htons`, on hosts of either byte order |
| SignalWords.PackThenUnpack | server/src/signals_operations.c:3-19 | packing and unpacking returns every address and port, on hosts of either byte order |
| SignalWords.UnpackThenPack | server/src/signals_operations.c:3-19 | unpacking and packing a word keeps exactly its low 48 bits |
| SignalWords.PortSurvivesSignal | server/src/broadcast.c:66-69 | the port an admin packs is the port the broadcaster holds after unpacking |
| SignalWords.Broadcaster.UpdateAdminInfo | server/src/broadcast.c:59-72 | replaces the advertised address by the one packed in the signal, and the advertised port by the packed port |
| SignalWords.Broadcaster.Answer | server/src/broadcast.c:42-55 | the text answered reads back, by the asker's `atoi`, as the advertised port |
| PortSearch.ClaimPort | server/src/administraitors.c:34-46 | claims the least free port above 23456 within 42079 tries if there is one, and otherwise publishes port 0 while holding another |
| Handoff.ChainStep | server/src/connection_handler.c:38-66 | every step keeps the chain: all but the newest admin have requested their successor, and requests, forks and admins balance |
| Handoff.PortStep | server/src/administraitors.c:37-46 | every step keeps the held ports distinct, real and apart from other programs' ports |
| Handoff.MailStep | server/src/administraitors.c:50-55 | every step keeps the publications one for one those of the first admins, in creation order |
| Handoff.AdvertisedStep | server/src/broadcast.c:66-69 | every step keeps the advertised address the unpacked last word applied |
| Handoff.FlowStep | server/src/connection_handler.c:44-54 | a step keeps published words = applied, then waiting at the broadcaster, then in forwarding, then waiting at the handler, if and only if it drops no merged signal |
| Handoff.SurvivorStep | server/src/connection_handler.c:44-54 | every step, queued or merged, keeps the publications that were not dropped those applied, then waiting, in forwarding, waiting, in order, and never drops the first one |
| Handoff.FlowExactIff | server/src/connection_handler.c:44-54 | over every run the flow is exact if and only if no event of the run drops a publication, and exact for those not dropped in any case |
| Handoff.AdvertisedIsNewestKept | server/src/broadcast.c:59-72 | in every drained state with a publication, queued or merged, the port answered is that of the newest publication not dropped; the last word applied is the newest one's if and only if that was dropped neither at its publication nor at its forwarding |
| Handoff.RunKeepsInv | server/src/connection_handler.c:10-68 | the whole invariant holds after every sequence of events of all processes |
| Handoff.OneToken | server/src/connection_handler.c:56-66 | pending requests, forks in progress and admins that owe their request total at most one, and none exactly if an admin failed before serving; no request is merged away |
| Handoff.OneSuccessorEach | server/src/administraitors.c:57-83 | admins that requested are as many as successors forked or under way, and admin i+1 exists or is on its way exactly if admin i has requested |
| Handoff.NewestPortIsAdvertised | server/src/broadcast.c:49-69 | with queued signals the ports published in creation order are those applied, then those under way; once drained, the answer reads back as the port of the newest admin that published |
| Handoff.LivePortsDistinct | server/src/administraitors.c:34-46 | live admins hold pairwise distinct ports held by no other program, and publish distinct ones unless a search wrapped to 0 |
| Handoff.PortReleased | server/src/administraitors.c:58-67 | an admin that leaves or fails holds no port any more, just its port becomes free, and the other admins are untouched |
| Handoff.OthersTake | server/src/administraitors.c:45 | other programs may change which ports they hold, and the ports taken change by just that |
| Handoff.NothingStuck | server/src/connection_handler.c:38-66 | which step each admin can take, and that requests and words under way can always be carried on |
| Handoff.PublicationArrives | server/src/administraitors.c:50-55 | an admin that has bound its port can publish it, and four events later it is the one advertised |
| Handoff.SuccessorFollows | server/src/administraitors.c:57-83 | an admin that waits can accept, and four events later it serves and its one successor searches |
| Handoff.SearchesEnd | server/src/administraitors.c:37-46 | in every reachable state an admin that still searches is at one of its first 42080 tries |
| Handoff.OneTry | server/src/administraitors.c:37-46 | try k is for port 23456 + k, claimed and to be published if free; after 65535 some port is claimed and 0 to be published |
| Handoff.FreePortBoundsSearch | server/src/administraitors.c:37-46 | over all interleavings, a port above 23456 that nobody takes while an admin searches bounds its tries and the port it gets |
| Handoff.UndisturbedSearch | server/src/administraitors.c:37-46 | in the protocol an undisturbed search ends on the least port above 23456 held by nobody, after as many tries as the distance |
| Handoff.MergingLosesNewest | server/src/connection_handler.c:51 | an instance: where signals merge, a run ends drained with the second publication dropped and the first admin's port advertised |
| Commands.InputParts | client/src/client.c:42-52 | the command part of a prompt line holds no space and the parts around the first space make up the line |
| Commands.ReadInput | client/src/client.c:34-53 | fills the two buffers with the parts of the line without its last character |
| Commands.Parser | server/src/additionals_to_admins.c:13-41 | cuts the message at its first space, recognises the command, and the two parts around the space are the message |
| Commands.ParseByWord | server/src/additionals_to_admins.c:13-45 | which message is run, copied, refused, the goodbye or without result, by the word before its first space |
| Commands.FieldsOf | server/src/tasks.c:21-30 | splitting at spaces is inverted by joining, leaves no space in a later piece, and gives one piece more than there are spaces |
| Commands.WordsOf | server/src/tasks.c:17-30 | for a command starting with a non-space no argument holds a space and the arguments joined are the command |
| Commands.BareCommand | client/src/command.c:23 | a command typed alone is started with one extra empty argument |
| Commands.SplitArguments | server/src/tasks.c:16-30 | slot k points at argument k, NUL-terminated in the command buffer, and the slot behind the last is NULL; all writes stay inside the 100 slots exactly with at most 99 arguments |
| Commands.OverrunsIff | server/src/tasks.c:16-30 | the table is overrun if and only if the command has more than 98 spaces behind its first character |
| Commands.TrimAfterNewline | server/src/administraitors.c:130-135 | leaves the text through the first newline, changes one byte at most, and turns at most once although its bound shrinks |
| Session.ParseSent | server/src/additionals_to_admins.c:13-37 | each command datagram is parsed as the command it was sent for, with its argument whole |
| Session.SizeSent | server/src/tasks.c:58-65 | the printed size is read back, so the receive takes exactly the content |
| Session.TypedIsClean | client/src/client.c:43-52 | the request made of a line without NULs has none, and a copy source has no space |
| Session.CopyTakeStep | server/src/tasks.c:51-75 | within a copy whose first datagram fits the server takes each datagram for what it is, and after the third one the copy is carried out and answered; without the first it crashes |
| Session.CommandTakeStep | server/src/tasks.c:10-48 | a command is taken for what it is; it is then for ever silent exactly if it overruns the table or its outcome gives no answer, and otherwise answered with just the program's output |
| Session.InStepKept | client/src/command.c:13-79 | every step of either side keeps them in step |
| Session.FilesKept | server/src/tasks.c:56-67 | every step keeps the server's files what the programs run and the copies carried out made of them, the target of a running copy being empty |
| Session.RunInv | old_src/src_server/administraitors.c:86-91 | both hold after every sequence of prompt lines, sends, receives and outcomes of commands |
| Session.PromptMeansDone | client/src/client.c:55-71 | whenever the client is back at its prompt both queues are empty and the server has carried out exactly the requests made, in order, with its files accordingly |
| Session.NeverMistaken | server/src/tasks.c:60-65 | no size or content datagram is received where a command is parsed, nor the other way round, except exactly when the first datagram of the copy under way did not fit; the server crashes exactly on taking what passes for the command of a fatal request, and stops only after the client left |
| Session.FatalAsTyped | client/src/command.c:21-61 | a typed line makes a fatal request if and only if it is a command of at most 65504 characters with more than 98 spaces behind its first one, or a copy to a target of more than 65498 characters |
| Session.CrashIffTyped | server/src/additionals_to_admins.c:13-37 | in every run the server has crashed if and only if such a line was typed and its datagram taken |
| Session.DoneIsPrefix | old_src/src_server/administraitors.c:86-91 | at any moment the requests carried out are those made, up to the last one |
| Session.StuckIff | server/src/tasks.c:16-65 | a waiting client can never go on if and only if the last event is the server taking its command and that overruns the table, could not be started, never ends, fills the pipe or prints more than a datagram; or a datagram of the request did not fit and the others are taken or have crashed the server; then no event is possible any more |
| Session.CopyIsExact | client/src/command.c:36-66 | after a typed copy of a source without a space to an openable target, spaces allowed, the next prompt finds the client's bytes under that target, or an empty file if the client has none, and every other path as it was before the line |
| Session.CopyCompletesIff | client/src/command.c:54-66 | after such a line at most 8 events pass until nothing but typing is possible; then the client is at its prompt, and the target holds the file, if and only if the file has at most 65507 bytes, and the target is empty otherwise; with a target of more than 65498 characters the server has crashed; every other path is as before the line |
| Session.WriteChanges | server/src/tasks.c:56-67 | a write changes the one path, if it opens, and no other |
| Session.ReceivedIs | server/src/tasks.c:60-65 | what is written has the announced size: the received bytes, cut or followed by NULs |
| Session.ProgramChanges | server/src/tasks.c:34-43 | after a program what it has written is there, what it has removed is not, and the rest is as before |
| Session.BetweenLines | client/src/client.c:55-71 | between two typed lines only finitely much happens, within a budget set by what is under way, and no request is made |
| Session.CopyLine | client/src/client.c:60-61 | the typed line is split into source and target at the right spaces |
| Session.RequestsAsTyped | client/src/client.c:55-71 | which request a line makes, by the word before its first space and, for a copy, by what follows |
| Session.ExecLine | client/src/command.c:21-24 | a typed command reaches the splitter as typed, with one space added when it has none, and its arguments say it again |
| SessionScripts.ExitLeaves | client/src/command.c:13-19 | from every prompt a line with first word "@exit" sends "@Disconnected", the client leaves and the server stops on taking it |
| SessionScripts.LeftIffExitTyped | client/src/client.c:58-59 | in every run the client has left if and only if such a line was typed |
| SessionScripts.NothingSent | client/src/client.c:60-66 | from every prompt an unknown word behind '@' changes nothing, and a copy without second path or a copy back ends the client without a send |
| SessionScripts.CommandRuns | server/src/tasks.c:10-48 | from every prompt a typed command short enough is taken; the table of what follows: crash above 98 spaces, no answer, blocked above 65536 characters of output, or the program's changes and, up to 65507 characters, its output as the answer |
| SessionScripts.CopyRuns | client/src/command.c:54-75 | from every prompt a copy of a file that fits can be gone through to the answer "@Success" and the next prompt |
| SessionScripts.AnswerHeard | client/src/command.c:27-32 | an answer can be heard, and then the client has its prompt again |
| SessionPeers.ServerSide.CopyTo | server/src/tasks.c:51-75 | takes the datagrams there are, writes the received bytes under the path, no other path, and answers, or waits |
| SessionPeers.HonestCopy | server/src/tasks.c:58-67 | from the two datagrams a client sends, the file gets exactly the content |
| SessionPeers.ServerSide.DoUsual | server/src/tasks.c:10-48 | splits the command in its buffer, starts the program with exactly its words, answers what fits; no defined result exactly if the table is overrun |
| SessionPeers.ServerSide.Turn | old_src/src_server/administraitors.c:86-91 | on any datagram, one turn of the server loop is as many steps of the transition system as it takes datagrams, and comes back as the system then stands, with code 0 exactly when it stops |
| SessionPeers.CopyTakes | server/src/tasks.c:51-75 | the receives of a copy, as many as there are datagrams for, write the received text once, record it and answer |
| SessionPeers.ClientSide.CommandCopyTo | client/src/command.c:36-66 | sends path, size and content of the named file, empty if there is none, as far as each fits into 65507 bytes, or crashes exactly without a space |
| SessionPeers.ClientSide.DoTask | client/src/client.c:55-71 | sends what the transition system sends for the input; code 0 exactly for "@exit", which sends "@Disconnected"; a crash exactly for a copy without second path or a copy back; nothing for other words behind '@' |
| SessionPeers.DatagramsAreSent | client/src/command.c:13-66 | the datagrams of a request are those the transition system puts on the wire, in that order |
| OldClient.NextKeeps | old_src/src_client/client.c:55-106 | one prompt line keeps the status and log invariant, lowers no status, and ends the loop exactly for the exit command |
| OldClient.SessionKeeps | old_src/src_client/main.c:92-99 | so does every script of lines, and the loop goes on to its end unless it ended |
| OldClient.OnlyAfterLogin | old_src/src_client/client.c:55-106 | in every run exec and copy requests are sent only after a login or session request was answered with success, status 2 means just that, and the loop ends exactly on exit |
| OldClient.StatusNeverDecreases | old_src/src_client/command.c:38-80 | in no run does the status decrease from one line to a later one |
| OldClient.CommandSent | old_src/src_client/client.c:93-95 | logged in, a line whose first word does not start with '@' is sent and its reply heard if the request stays below 1024 bytes, and nothing else changes |
| OldClient.CopySent | old_src/src_client/client.c:73-76 | so is a copy with two paths |
| OldClient.LoginSent | old_src/src_client/command.c:21-59 | connected, a login is sent and its reply heard; on "@Success" and nothing else the client is logged in and the line saved |
| OldClient.SessionSent | old_src/src_client/command.c:61-80 | disconnected, a connection found brings its keys, and with a readable saved line its session is asked for and the reply decides |
| OldClient.ReplyTooLong | old_src/src_client/connection.c:86-89 | a reply of 1024 bytes to either of these has no defined result after the request is sent |
| OldClient.SentExactlyWhen | old_src/src_client/client.c:55-106 | in no other case is anything sent |
| OldClient.NotDue | old_src/src_client/client.c:58-106 | the codes of lines whose command is not due or unknown, with the state unchanged |
| OldClient.OneMoreLine | old_src/src_client/main.c:92-99 | one more line is one more step from where the script ended, unless the loop had ended |
| OldClient.LoginThenReconnect | old_src/src_client/command.c:38-80 | after a successful login the next client reads back login, password and keys if and only if the line has 33 to 1023 bytes and no '#' in the first three; it asks for the session exactly for 33 to 1000 bytes, and runs out of a buffer exactly beyond or on a reply of 1024 bytes |
| OldClient.Client.CommandConnect | old_src/src_client/command.c:61-80 | changes status, user record and log as the connection attempt, the saved line and the reply decide |
| OldClient.Client.CommandLogin | old_src/src_client/command.c:21-59 | changes status, saved line, and the login and password cut out of the argument exactly on success, crashing without a delimiter in it |
| OldClient.Client.DoTask | old_src/src_client/client.c:55-106 | performs the gated dispatch on the object's fields |
| OldClient.Client.PromptLoop | old_src/src_client/main.c:92-99 | runs a script of lines until the code is 0 |
| SavedSession.SavedRoundTrip | old_src/src_client/connection.c:39-66 | login, password, key, and the IV with the newline come back if and only if the line has 33 to 1023 bytes and the first three hold no '#'; a shorter line is not recognised and a longer one leaves the buffer unterminated |
| SavedSession.PartsAreClean | old_src/src_client/connection.c:43-49 | whatever is read, login, password and key hold no '#' |
| SavedSession.SavedAfterKeyExchange | old_src/src_client/command.c:44 | agreed keys are digits, so only '#' in login or password and the length of the line matter |
| SavedSession.CheckForOldKeys | old_src/src_client/connection.c:32-78 | reads at most 1024 bytes of any file, cuts them in place at the first three delimiters and copies out the four parts, or finds them short, unterminated or without a delimiter |

## Left out

- AES and the `Encrypt`/`Decrypt`, `Send_message`/`Get_message` wrappers: foreign code; nothing is claimed about encrypted traffic. The session's receive is plain, since old_src/src_server/message.c is not part of this model.
- PAM and system accounts, logging, the `sh` process with its pipes, timing: external effects.
- Socket and fork errors other than those modelled, lost or reordered datagrams, short TCP reads: assumed away on the abstract channels.
- Randomness and secrecy of the numbers: not correctness of this code.
- `Copy_from`, `Command_copy_from` and the disabled login branches of `Parser`: empty bodies without a return value, or commented out; where they would run, the models have no defined result.
- Start-up code, argument parsing and the sample programs: plumbing.
- Handoff.RunKeepsInv: the signal handlers are modelled as steps on values rather than as methods on globals, because what is proved is about all interleavings; update in place is not captured there.
- Commands.ReadInput: end of input, where the code writes before its buffer, is not modelled.
- Commands.TrimAfterNewline: a message without a newline, for which the code subtracts pointers into different objects, is not modelled.
- Session.CopyIsExact: a target that the server cannot open is answered with success without being written; the model includes it (`Write`), the lemma is about targets that open.
- Session.FilesKept: says nothing about the files while a program that never ends is running; files that something other than the session's requests changes are not modelled.
- OldClient.OnlyAfterLogin: the broadcast search and the key exchange appear as their results (`Surroundings`).
