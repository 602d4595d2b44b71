# Drivers of the HDF core: a verified model

A Dafny 4.11 model of nine parts of the driver framework, with proofs about every input, every
interleaving or every run. `dafny verify dfyconfig.toml` checks the whole project.

| files | part of the system |
|---|---|
| `Hdf` | status codes and types shared by the drivers |
| `Runs`, `HcsScan`, `HcsLexer` | the scanner of the HCS include collector: one-token lookahead in a reused token, rows and columns |
| `HcsIncludes`, `HcsWalk`, `HcsParser`, `HcsRender` | its work list of files, include reachability, termination, and a printer that scanning inverts |
| `AsrRing`, `UartLifecycle`, `UartAsr` | ASR UART: 512-byte interrupt ring, reference-counted opening and closing (the GR5xx driver shares it), the driver |
| `UartBes` | BES UART: one-shot DMA feeding a bounded FIFO |
| `UartGr5xx` | GR5xx UART: mutex, semaphore and asynchronous request |
| `PwmTimer` | STM32F4 PWM period and duty arithmetic |
| `HostArgs` | the driver host's command line |
| `GpioIrq` | BES GPIO interrupt configuration and routing |
| `SpiRecv`, `CanVirtual` | BES SPI chunked receive; the virtual CAN controller |

Each part has specification functions or a state machine over its atomic steps, lemmas about all runs
of it, and a class or method in the form of the code whose contract ties it to the specification.
Concurrency is a sequence of events: interrupts fall between any two reader steps, and the driver
methods take the interrupts, DMA completions and HAL answers they meet as parameters.

Assumptions about the environment:

- The file system does not change during a scan; path functions, `isspace` and `isalpha` are parameters,
  of which only the few facts in `HcsScan.Sensible` are used. A path exists if its absolute form names a
  readable text.
- A DMA completes only while armed and delivers at most its buffer; `kfifo` is a bounded FIFO, and one
  whose control structure is zeroed has no room.
- The HAL raises at most one event per accepted request and none otherwise.
- Double-precision expressions of the PWM driver are exact reals.

## Where the code falls short

The model follows the code. Where an expected property fails, a lemma gives the exact condition.

- The include walk does not end if a cycle is reachable (`HcsWalk.WalkEndsIffCycleFree`). A comment
  between `#include` and its string hides the include (`HcsIncludes.EdgeIff`), and the text `/*/` at the
  end of a file counts as a comment (`HcsScan.BlockCommentKind`).
- The ASR ring looks empty when exactly full, and a reader skips bytes beyond that (`AsrRing.TestSeesUnread`,
  `AsrRing.DeliveredInPlace`); indices survive a close (`AsrRing.StaleBytes`).
- A failed open leaves the port half open: the next open succeeds without a buffer
  (`UartLifecycle.UnsafeIffRetried`), and a failed mutex creation loses a buffer
  (`UartLifecycle.BuffersConserved`).
- A BES port opened a second time receives nothing (`UartBes.SecondOpenReceivesNothing`), and one whose FIFO
  has overflowed nothing more (`UartBes.OverflowIsFinal`).
- The GR5xx count is loaded after the mutex is released (`UartGr5xx.OverlapLosesCount`), and a failed
  wait abandons its request (`UartGr5xx.AbandoningBreaksIt`).
- The comment on the PWM clock table lists timer 14; its entry is missing (`PwmTimer.Tim14NeverRuns`).
- A gpio on pin 0 is shadowed by unused table entries (`GpioIrq.RoutesBackIff`).
- The BES SPI DMA branch takes a successful wait, documented as 0, for a timeout, and returns success
  after both (`SpiRecv.DmaStopsAfterFirstWindow`): a DMA timeout is reported as success
  (`SpiRecv.DmaTimeoutReportsSuccess`), and so is a transfer cut after 4095 bytes
  (`SpiRecv.DmaLongTransferIsCut`).

## Model

| member | source | states |
|---|---|---|
| `HcsScan.StreamPartitions` | framework/tools/hc-gen/hcs_build_info.py:97-189 | for every text, white space and the lexemes of its token stream cover the text without gap or overlap; each lexeme spells its token and carries the row and column of its first character |
| `HcsScan.ShapeSpells` | framework/tools/hc-gen/hcs_build_info.py:121-189 | the value of a token determines the characters it was read from, by kind; what it leaves open, a leading quote or a closing line break, only an unclosed string or a last line without break at the end of the text leaves open; an include token is not followed by a letter |
| `HcsScan.IncludeIff` | framework/tools/hc-gen/hcs_build_info.py:121-136 | a text begins with an include token exactly if it begins with the eight characters #include and no letter follows |
| `HcsScan.StringIff` | framework/tools/hc-gen/hcs_build_info.py:138-149 | it begins with a string token exactly if it begins with a quote that another quote follows |
| `HcsScan.CommentIff` | framework/tools/hc-gen/hcs_build_info.py:151-189 | it begins with a comment token exactly if it begins with a line comment, or a block comment that is closed or ends the text overlapping its own opener |
| `HcsScan.UnknownExtent` | framework/tools/hc-gen/hcs_build_info.py:97-189 | an unknown directive extends over all letters, an unclosed string or block comment to the end of the text, any other unknown token over one character |
| `HcsScan.LineStartIsLast` | framework/tools/hc-gen/hcs_build_info.py:73-83 | the column counts from the character after the last line break |
| `HcsScan.PositionSteps` | framework/tools/hc-gen/hcs_build_info.py:73-83 | the first character is in row and column one; a line break starts the next row in column one, any other character moves on one column |
| `HcsScan.PositionIsUnique` | framework/tools/hc-gen/hcs_build_info.py:73-83 | later characters have lexicographically larger row and column |
| `HcsScan.BlockEndIsFirst` | framework/tools/hc-gen/hcs_build_info.py:175-183 | a block comment ends just past the first terminator after its opener, or at the end of the text |
| `HcsScan.BlockCommentKind` | framework/tools/hc-gen/hcs_build_info.py:175-189 | a block comment is a comment token exactly if it is terminated, or the text ends in the three characters of an opener overlapping a closer; otherwise it is unknown |
| `HcsScan.TokensOfStream` | framework/tools/hc-gen/hcs_build_info.py:91-95 | the tokens handed out are those of the lexemes, one for one |
| `HcsLexer.Lexer.GetChar` | framework/tools/hc-gen/hcs_build_info.py:73-83 | consumes one character and keeps row and column those of the position reached; nothing moves at the end |
| `HcsLexer.Lexer.PeekToken` | framework/tools/hc-gen/hcs_build_info.py:85-89 | shows the next pending token and leaves the pending tokens as they are; end of file exactly if none is pending |
| `HcsLexer.Lexer.GetToken` | framework/tools/hc-gen/hcs_build_info.py:91-95 | hands out the first pending token and removes it |
| `HcsLexer.Lexer.ReadToken` | framework/tools/hc-gen/hcs_build_info.py:97-119 | reads the lexeme at or after the read position into the reused token and moves just past it |
| `HcsLexer.Lexer.ReadInclude` | framework/tools/hc-gen/hcs_build_info.py:121-136 | the directive loop computes the maximal run of letters after the hash and its kind |
| `HcsLexer.Lexer.ReadString` | framework/tools/hc-gen/hcs_build_info.py:138-149 | the string loop computes the text up to the next quote, or an unknown token at the end of the text |
| `HcsLexer.Lexer.ReadComment` | framework/tools/hc-gen/hcs_build_info.py:151-163 | a slash starts a line comment, a block comment or stands alone |
| `HcsLexer.Lexer.ReadLineComment` | framework/tools/hc-gen/hcs_build_info.py:165-173 | the loop consumes the line break that ends the comment and leaves it out of the value |
| `HcsLexer.Lexer.ReadBlockComment` | framework/tools/hc-gen/hcs_build_info.py:175-189 | the loop stops at the first terminator and classifies the comment |
| `HcsLexer.PeeksAreInvisible` | framework/tools/hc-gen/hcs_build_info.py:85-95 | for every sequence of peeks and gets, the tokens got are the tokens of the text in order, however many peeks are interleaved, with end-of-file tokens after them |
| `HcsIncludes.EdgeIff` | framework/tools/hc-gen/hcs_build_info.py:214-232 | a file is an include of another exactly if some include token is directly followed by a string naming it and it exists |
| `HcsIncludes.EdgesInOrder` | framework/tools/hc-gen/hcs_build_info.py:214-232 | the includes of a file are, in order and as often as they occur, the existing files that its include tokens name one by one |
| `HcsRender.ScanInvertsPrint` | framework/tools/hc-gen/hcs_build_info.py:97-189 | scanning a printed text gives back the names of its include lines in order, whatever white space, if any, stands before the name, and whatever comments, strings and white space lie between, even if those contain include lines |
| `HcsRender.IncludesOfPrinted` | framework/tools/hc-gen/hcs_build_info.py:214-232 | the include edges of a printed file are the existing targets of its include lines, in order |
| `HcsWalk.EmptyQueueMeansReachable` | framework/tools/hc-gen/hcs_build_info.py:205-212 | whenever the queue is empty, the files recorded are those recorded before and exactly the files reachable from the root, although files are queued repeatedly |
| `HcsWalk.StepDropsWeight` | framework/tools/hc-gen/hcs_build_info.py:209-212 | each turn of the loop lowers the total weight of the queue by exactly one |
| `HcsWalk.RunTakesWeight` | framework/tools/hc-gen/hcs_build_info.py:209-212 | after n turns the weight is the initial weight minus n, and the queue is empty exactly once n has reached it |
| `HcsWalk.TreeSizeEquation` | framework/tools/hc-gen/hcs_build_info.py:208-232 | the number of turns for a file is one more than the sum over its include occurrences |
| `HcsWalk.CycleFreeHeight` | framework/tools/hc-gen/hcs_build_info.py:208-212 | include routes from a file are bounded exactly if no cycle is reachable, and then by the number of files |
| `HcsWalk.UnboundedNeverEnds` | framework/tools/hc-gen/hcs_build_info.py:209-212 | a queue that holds a file with unbounded include routes is never empty |
| `HcsWalk.WalkEndsIffCycleFree` | framework/tools/hc-gen/hcs_build_info.py:205-212 | the loop for an existing root ends if and only if no include cycle is reachable from it, after exactly as many turns as its tree of includes has nodes |
| `HcsWalk.WalkResult` | framework/tools/hc-gen/hcs_build_info.py:205-212 | a walk that ends takes that number of turns and adds exactly the reachable files |
| `HcsParser.HcsParser.Parse` | framework/tools/hc-gen/hcs_build_info.py:205-212 | a root that does not exist changes nothing; otherwise the recorded files grow by exactly those reachable from it and the queue is empty again |
| `HcsParser.HcsParser.ParseOne` | framework/tools/hc-gen/hcs_build_info.py:214-222 | queues the existing targets of the include directives of a file, in source order, behind what is already queued |
| `HcsParser.HcsParser.ParseInclude` | framework/tools/hc-gen/hcs_build_info.py:224-232 | consumes the include token only; a string that follows is resolved and queued if it exists |
| `HcsParser.CollectHcsFiles` | framework/tools/hc-gen/hcs_build_info.py:240-248 | the files collected from several roots are exactly those reachable from some existing root |
| `AsrRing.ApplyKeepsExact` | adapter/platform/uart/uart_asr.c:91-115 | every interrupt and every reader step keeps the exact relation between ring, indices and streams |
| `AsrRing.RingIsExact` | adapter/platform/uart/uart_asr.c:91-115 | in every interleaving, overflow included, and from any indices at the start: head and tail are where the streams put them modulo 512, no more is delivered than was left over or received, and each byte delivered is the latest stored in its slot |
| `AsrRing.TestSeesUnread` | adapter/platform/uart/uart_asr.c:248-260 | the reader sees bytes exactly if the number of unread bytes is not a multiple of 512 |
| `AsrRing.DeliveredInPlace` | adapter/platform/uart/uart_asr.c:247-260 | a delivered byte is the next of the stream exactly if at most 512 bytes were unread when it was taken |
| `AsrRing.RingIsFifo` | adapter/platform/uart/uart_asr.c:247-260 | if that holds at every take, what is delivered is a prefix of the leftover followed by what was received |
| `AsrRing.RunBelowLimitIsFifo` | adapter/platform/uart/uart_asr.c:228-264 | in every run with at most 511 unread bytes the delivered stream is a prefix of the leftover followed by the received bytes, and the ring looks empty exactly if nothing is unread |
| `AsrRing.StaleBytes` | adapter/platform/uart/uart_asr.c:463-491 | a session delivers n bytes before any has arrived exactly if n is at most the gap between the indices it inherited, and delivers the fresh buffer |
| `UartLifecycle.EveryRunIsSound` | adapter/platform/uart/uart_asr.c:446-516 | over every run, failures and surplus closes included: buffer and mutexes exist exactly if the port is not closed and its last set-up succeeded; opening is the state left by a failure |
| `UartLifecycle.BalancedRun` | adapter/platform/uart/uart_asr.c:446-516 | without failures and surplus closes, the count is opens minus closes, the port is usable with buffer and mutexes exactly while the count is positive, and closed otherwise |
| `UartLifecycle.BuffersConserved` | adapter/platform/uart/uart_asr.c:463-477 | buffers allocated equal buffers freed, plus the live one, plus one for each failed mutex creation |
| `UartLifecycle.UnsafeIffRetried` | adapter/platform/uart/uart_asr.c:463-491 | a run reaches a usable port without a buffer if and only if it repeats an open after a failed one |
| `UartLifecycle.RetryReportsSuccess` | adapter/platform/uart/uart_asr.c:463-492 | the repeated open reports success |
| `UartLifecycle.InitSucceedsIff` | adapter/platform/uart/uart_asr.c:463-492 | in every reachable state an open succeeds exactly if it leaves the port usable, which is unless the port is closed and its set-up fails; the code tells lack of memory from the other failures |
| `UartLifecycle.CountIsSuccesses` | adapter/platform/uart/uart_asr.c:490-509 | in every run the count is the number of opens that reported success less the number of closes |
| `UartLifecycle.ClosesAtOne` | adapter/platform/uart/uart_asr.c:504-514 | a close that takes the count from one to zero closes the port; any other changes only the count |
| `UartLifecycle.SurplusDeinit` | adapter/platform/uart/uart_asr.c:504-514 | after a surplus close the next open and close leave the port open with count minus one |
| `UartAsr.AsrUart.Init` | adapter/platform/uart/uart_asr.c:446-493 | opens as the lifecycle prescribes and succeeds exactly if the port is usable afterwards; a set-up that succeeds starts a session over a zeroed buffer at the inherited indices, in which the bytes that arrive during the set-up are the first received; a failed configuration loses them and still moves the head |
| `UartAsr.AsrUart.SetUp` | adapter/platform/uart/uart_asr.c:463-488 | allocation, mutexes and configuration in order, each failure undone as far as the code undoes it |
| `UartAsr.AsrUart.Deinit` | adapter/platform/uart/uart_asr.c:495-516 | closes as the lifecycle prescribes |
| `UartAsr.AsrUart.Detach` | adapter/platform/uart/uart_asr.c:617-633 | driver data is freed exactly if the port is closed, and then no buffer and no mutex is left |
| `UartAsr.AsrUart.Callback` | adapter/platform/uart/uart_asr.c:91-98 | stores the byte and advances the head, or drops it without a buffer |
| `UartAsr.AsrUart.TakeByte` | adapter/platform/uart/uart_asr.c:250-253 | delivers the byte at the tail and advances the tail |
| `UartAsr.AsrUart.Read` | adapter/platform/uart/uart_asr.c:228-264 | what is returned is appended to the delivered stream, under any schedule of interrupts, whose bytes are all received; blocking reads return full, other reads stop short only at equal indices; an unusable port is an error |
| `UartAsr.AsrUart.ReadBlocking` | adapter/platform/uart/uart_asr.c:248-254 | returns exactly the size asked for, or waits with nothing to take |
| `UartAsr.AsrUart.ReadNonBlocking` | adapter/platform/uart/uart_asr.c:255-260 | ends after at most the size asked for, short only if the indices are equal |
| `UartAsr.AsrUart.DriverRingIsExact` | adapter/platform/uart/uart_asr.c:228-264 | in every reachable state of the driver, whatever indices the last session left, ring and streams are exactly related |
| `UartBes.ApplyKeepsGapFree` | adapter/platform/uart/uart_bes.c:121-136 | every DMA completion, read and wait keeps the streams free of gaps |
| `UartBes.ReceiveIsGapFree` | adapter/platform/uart/uart_bes.c:121-136 | over every interleaving, what readers got is a prefix of what the DMA delivered, complete up to the FIFO while the DMA is armed, and short of at most one transfer |
| `UartBes.DisarmedIffOverflow` | adapter/platform/uart/uart_bes.c:127-135 | a completion fills the FIFO as far as it goes, and posts the semaphore and leaves the DMA armed exactly if the transfer fits |
| `UartBes.OverflowIsFinal` | adapter/platform/uart/uart_bes.c:127-135 | after an overflow no run delivers another byte |
| `UartBes.SemaphoreCounts` | adapter/platform/uart/uart_bes.c:121-136 | over every interleaving the semaphore is the completions that fitted less the waits that passed |
| `UartBes.SecondOpenReceivesNothing` | adapter/platform/uart/uart_bes.c:289-341 | after a second open every run leaves the FIFO empty and every read without data |
| `UartBes.TakenIsAvailable` | adapter/platform/uart/uart_bes.c:247-266 | after the drain of each turn a reader has all that the FIFO held at the start and received since, or as much as it asked for |
| `UartBes.AvailableAreArrivals` | adapter/platform/uart/uart_bes.c:121-136 | what is available to a reader are the first FIFO contents followed by the bytes the schedule brings, complete while the DMA is armed and cut off at an overflow otherwise |
| `UartBes.BesUart.HandlerInit` | adapter/platform/uart/uart_bes.c:314-359 | the context is cleared; the FIFO gets room only on the open that allocates its buffer; the DMA is armed |
| `UartBes.BesUart.DmaRxHandler` | adapter/platform/uart/uart_bes.c:121-136 | stores what fits; posts the semaphore and re-arms only if everything fitted |
| `UartBes.BesUart.HalUartRecv` | adapter/platform/uart/uart_bes.c:228-269 | under any schedule: returns all that was available up to the last drain, or as much as was asked for; the turns before the last drain are those that were short but not empty and whose wait passed in time; a short result means that time was up after the last wait; waits on only if nothing is posted and time is not up; size zero is refused |
| `UartBes.BesUart.Read` | adapter/platform/uart/uart_bes.c:738-774 | the DMA branch returns the same bytes and their number, or an error for size zero or a count above the signed range |
| `UartBes.BesUart.DriverIsGapFree` | adapter/platform/uart/uart_bes.c:121-269 | in every reachable state of the driver the bytes returned form a prefix of the bytes delivered |
| `UartGr5xx.RunIsRendezvous` | adapter/platform/uart/uart_gr5xx.c:62-70 | every run without an abandoned request keeps at most one request outstanding and the invariants on rendezvous and counts |
| `UartGr5xx.EveryRunFromIdle` | adapter/platform/uart/uart_gr5xx.c:191-211 | from an idle port: at most one request outstanding; a reader that releases after a successful wait sees the size of its own completion, 0 on error; a read nobody overlaps returns it, and an overlapped one returns 0 or the size of a later request |
| `UartGr5xx.AbandoningBreaksIt` | adapter/platform/uart/uart_gr5xx.c:202-207 | the condition is exact: after any wait that fails with its request outstanding the next reader can make two requests outstanding |
| `UartGr5xx.OverlapLosesCount` | adapter/platform/uart/uart_gr5xx.c:209-211 | both happen: a reader overtaken between release and load returns 0 if the other has only cleared the count, and the size of the other if that has completed |
| `UartGr5xx.FailuresOnlyRelease` | adapter/platform/uart/uart_gr5xx.c:62-207 | a refused request and a failed wait release the mutex and change nothing else; an error event leaves the count as it is |
| `UartGr5xx.Gr5xxUart.Callback` | adapter/platform/uart/uart_gr5xx.c:62-70 | data sets the count and posts, an error only posts, other events do nothing |
| `UartGr5xx.Gr5xxUart.Step` | adapter/platform/uart/uart_gr5xx.c:191-209 | every event, abandoned requests included, does to semaphore, mutex and count what the protocol says, and keeps the invariants unless a request is abandoned |
| `UartGr5xx.Gr5xxUart.Interrupted` | adapter/platform/uart/uart_gr5xx.c:191-211 | whatever other readers and the HAL do, they do not move a reader |
| `UartGr5xx.Gr5xxUart.Begin` | adapter/platform/uart/uart_gr5xx.c:191-200 | under any steps of others: takes the mutex unless it is held, clears count and semaphore and starts the receive; a refused request releases the mutex; an accepted one is the only one outstanding unless one was abandoned |
| `UartGr5xx.Gr5xxUart.Leave` | adapter/platform/uart/uart_gr5xx.c:209-211 | under any steps of others: releases the mutex and returns the count, which unless a request was abandoned is that of its own completion if nobody clears it in between, otherwise 0 or that of a later request |
| `UartGr5xx.Gr5xxUart.Read` | adapter/platform/uart/uart_gr5xx.c:175-212 | from any state and under any steps of others: every return releases the mutex; an unusable port, refused request or failed wait is an error; otherwise, unless a request was abandoned, the return is the size of its own completion, or if overtaken 0 or that of a later request; it stays blocked only while the mutex is held or nothing is posted |
| `PwmTimer.RealHz` | adapter/platform/pwm/pwm_stm32f4xx.c:417 | the truncated double quotient is the integer quotient of clock and prescaler |
| `PwmTimer.SucceedsIffFastEnough` | adapter/platform/pwm/pwm_stm32f4xx.c:398-431 | a configuration succeeds exactly if the period is between 1 ns and 1 s and the counter clock is at least the requested frequency |
| `PwmTimer.PeriodIsGreatest` | adapter/platform/pwm/pwm_stm32f4xx.c:412-420 | the counted period is the greatest number of ticks whose product with the requested whole frequency does not exceed the counter clock |
| `PwmTimer.PeriodBounds` | adapter/platform/pwm/pwm_stm32f4xx.c:405-420 | the counted period is less than one tick below the requested one and above it by no more than the rounding of the frequency |
| `PwmTimer.DutyBounds` | adapter/platform/pwm/pwm_stm32f4xx.c:426-434 | the compare value is the requested fraction truncated to a tick; it is below the period exactly if the duty is below the requested period, and equals it at full duty |
| `PwmTimer.DutyRatioError` | adapter/platform/pwm/pwm_stm32f4xx.c:426-434 | the duty ratio is never above the requested one and less than one tick below it |
| `PwmTimer.DutyIsMonotone` | adapter/platform/pwm/pwm_stm32f4xx.c:426-434 | a longer requested duty never gives a smaller compare value |
| `PwmTimer.Tim14NeverRuns` | adapter/platform/pwm/pwm_stm32f4xx.c:119-133 | no request for the last timer succeeds, whose clock entry is missing |
| `PwmTimer.TimerClocks` | adapter/platform/pwm/pwm_stm32f4xx.c:119-133 | timers 1 and 8 to 11 are clocked at 168 MHz, the others at 84 MHz, except the last, which has no clock |
| `PwmTimer.PwmDevice.SetConfig` | adapter/platform/pwm/pwm_stm32f4xx.c:513-557 | success and failure conditions; an enabled device holds the greatest period that fits the clock, less one, and the truncated fraction of it that the duty asks for; a refused request changes nothing |
| `HostArgs.AcceptsExactly` | adapter/uhdf2/host/devhost.c:55-71 | a string is accepted as v exactly if it is white space, an optional sign and digits denoting v, and v is a 32-bit integer |
| `HostArgs.ParsesDecimal` | adapter/uhdf2/host/devhost.c:55-71 | parsing inverts decimal printing for every 32-bit integer |
| `HostArgs.BadIntegerChangesNothing` | adapter/uhdf2/host/devhost.c:90-157 | a value that is not an integer changes no field, except for the name option |
| `HostArgs.FoldConcat` | adapter/uhdf2/host/devhost.c:240-265 | parsing two parts of whole pairs is parsing the second from the result of the first, unless the first stops |
| `HostArgs.TrailingIgnored` | adapter/uhdf2/host/devhost.c:250-254 | an argument left without a value is ignored |
| `HostArgs.StopsOnlyOnBadId` | adapter/uhdf2/host/devhost.c:90-157 | only a process id that is not an integer stops parsing |
| `HostArgs.FailsIffBadId` | adapter/uhdf2/host/devhost.c:240-265 | parsing fails exactly if some pair is a process id that is not an integer |
| `HostArgs.SetsMallopt` | adapter/uhdf2/host/devhost.c:144-157 | an allocator option with a 32-bit value appends its key and value, in that order, to the settings made and changes nothing else |
| `HostArgs.OptionsAre` | adapter/uhdf2/host/devhost.c:159-176 | the options are the six letters and the decimal keys -1014 to -1005 |
| `HostArgs.FailureIff` | adapter/uhdf2/host/devhost.c:229-238 | a command reports the other failure exactly for an unknown option and for an allocator key whose value is not an integer |
| `HostArgs.UnknownIgnored` | adapter/uhdf2/host/devhost.c:229-265 | an unknown option is passed over with its value |
| `HostArgs.ParsesRendered` | adapter/uhdf2/host/devhost.c:240-265 | parsing a printed line of options and allocator settings, in any order and number, sets exactly the fields it names and makes exactly its settings in order |
| `HostArgs.ParsesWholeConfig` | adapter/uhdf2/host/devhost.c:240-265 | any line with all six options gives the whole configuration back, and makes the allocator settings on it |
| `HostArgs.HostConfig.Run` | adapter/uhdf2/host/devhost.c:90-157 | each command function writes its field or nothing, and returns its code |
| `HostArgs.HostConfig.FindFunc` | adapter/uhdf2/host/devhost.c:229-238 | the linear search applies the first table entry for the option; an unknown option is a failure |
| `HostArgs.HostConfig.ParseCommandLineArgs` | adapter/uhdf2/host/devhost.c:240-265 | the loop computes the fold over argument pairs |
| `GpioIrq.DecodeIsBijective` | adapter/platform/gpio/gpio_bes.c:247 | decoding is injective on real pins whose last digit is below eight |
| `GpioIrq.EncodeInverts` | adapter/platform/gpio/gpio_bes.c:247 | decoding reaches every pin |
| `GpioIrq.DecodeCollides` | adapter/platform/gpio/gpio_bes.c:247 | a last digit of eight or nine collides with the next group |
| `GpioIrq.DecodeDigits` | adapter/platform/gpio/gpio_bes.c:247 | the last digit of a real pin is the pin in its group, the rest is the group of eight |
| `GpioIrq.ConfiguredEntries` | adapter/platform/gpio/gpio_bes.c:231-258 | the last entry for a gpio decides its pin, whatever the configuration |
| `GpioIrq.ReflectionHolds` | adapter/platform/gpio/gpio_bes.c:231-258 | after the configuration loop every configured gpio maps to its decoded pin and every other to pin 0 |
| `GpioIrq.DispatchIff` | adapter/platform/gpio/gpio_bes.c:77-89 | an interrupt is reported for a gpio exactly if the pin is in the table and the gpio is the smallest that maps to it |
| `GpioIrq.RoutesBackIff` | adapter/platform/gpio/gpio_bes.c:77-89 | the interrupt of a configured gpio is reported for that gpio exactly if its pin is not 0 or all smaller gpio numbers are configured |
| `GpioIrq.ContiguousRoutesBack` | adapter/platform/gpio/gpio_bes.c:77-89 | with gpio numbers 0..m every configured gpio receives its own interrupts |
| `GpioIrq.AcceptedIff` | adapter/platform/gpio/gpio_bes.c:415-494 | a call is accepted exactly if the pin is in the table and a trigger set is one of the four; a refused call changes nothing; edges and levels are recorded as such |
| `GpioIrq.ArmedAsLastSet` | adapter/platform/gpio/gpio_bes.c:415-494 | after any calls the trigger on record and the arming of a pin are those of the calls on the gpios of that pin |
| `GpioIrq.ArmedIff` | adapter/platform/gpio/gpio_bes.c:450-494 | armed with a trigger means exactly: enabled, neither enabled nor disabled since, and the trigger is the one on record when it was enabled |
| `GpioIrq.OnRecordIff` | adapter/platform/gpio/gpio_bes.c:415-436 | a trigger is on record exactly if some call set it and no later call set another |
| `GpioIrq.EnabledInterruptArrives` | adapter/platform/gpio/gpio_bes.c:415-494 | after any calls on configured gpios the pin of each is armed as the calls on it alone say, and its interrupt is reported for it exactly if the pin is not 0 or all smaller gpio numbers are configured |
| `GpioIrq.GpioBes.GetGpioDeviceResource` | adapter/platform/gpio/gpio_bes.c:231-258 | the loop fills the table as specified |
| `GpioIrq.GpioBes.OemGpioIrqHdl` | adapter/platform/gpio/gpio_bes.c:77-89 | reports the first gpio whose entry is the pin, or none |
| `GpioIrq.GpioBes.SetIrq` | adapter/platform/gpio/gpio_bes.c:415-436 | records edge or level trigger for the pin; other modes and pins outside the table are refused without change |
| `GpioIrq.GpioBes.EnableIrq` | adapter/platform/gpio/gpio_bes.c:450-472 | arms the pin with the recorded trigger and keeps the record |
| `GpioIrq.GpioBes.DisableIrq` | adapter/platform/gpio/gpio_bes.c:474-494 | disarms the pin and keeps the record |
| `SpiRecv.WindowsTile` | adapter/platform/spi/spi_bes.c:310-329 | the windows of a transfer are contiguous, in order, at most 4095 bytes, cover it exactly, and are ceil(size/4095) many |
| `SpiRecv.SpiContext.HalSpiRecv` | adapter/platform/spi/spi_bes.c:279-333 | the calls made are the first windows up to the first that stops the loop, whose code is returned; the mutex is released once after a successful lock; a byte of the buffer becomes the byte of the bus exactly if its window was asked for and filled, with DMA exactly if the wait for it succeeded |
| `SpiRecv.SuccessIsComplete` | adapter/platform/spi/spi_bes.c:310-332 | without DMA the call returns success if and only if every byte was received |
| `SpiRecv.DmaStopsAfterFirstWindow` | adapter/platform/spi/spi_bes.c:312-317 | with DMA exactly one window is asked for whenever the wait returns no positive value; success then means that every byte was received exactly if the size is at most 4095 and the wait succeeded |
| `SpiRecv.DmaTimeoutReportsSuccess` | adapter/platform/spi/spi_bes.c:312-333 | a transfer of any size whose first wait times out returns success and receives nothing |
| `SpiRecv.DmaLongTransferIsCut` | adapter/platform/spi/spi_bes.c:310-333 | a transfer above 4095 bytes returns success with exactly its first 4095 bytes although the wait succeeded |
| `CanVirtual.SupportedIff` | adapter/platform/can/can_virtual.c:141-151 | exactly the nine rates from 10 kbit/s to 1 Mbit/s are supported |
| `CanVirtual.SegmentsOf` | adapter/platform/can/can_virtual.c:141-151 | the segments of every rate, and the prescaler that makes up the 80 MHz clock |
| `CanVirtual.VirtualCanCntlr.constructor` | adapter/platform/can/can_virtual.c:253-307 | a successful initialisation ends timed, in loop-back mode and ready; a refused one stays in reset |
| `CanVirtual.VirtualCanCntlr.SetBitRate` | adapter/platform/can/can_virtual.c:153-176 | a supported speed sets the timing to the table entry of that speed, so that rate, prescaler and segments multiply to the 80 MHz clock; others change nothing |
| `CanVirtual.VirtualCanCntlr.SetConfig` | adapter/platform/can/can_virtual.c:188-214 | succeeds exactly for a supported speed in loop-back mode and leaves the bus in reset exactly if refused; a supported speed is kept even then; timing and mode stay consistent |
| `CanVirtual.VirtualCanCntlr.Send` | adapter/platform/can/can_virtual.c:82-115 | the message is delivered as sent, after all earlier ones, and the bus is ready |

## Left out

- Printing the sorted file list, decoding of text files, directories and symbolic links, and exceptions
  for unreadable files.
- `Token.dump`, `Token.info` and the file name they print.
- HcsParser.HcsParser.Parse: has no result for a root that reaches an include cycle, because the loop
  does not end there.
- Null-pointer arguments of the driver entry points, port numbers outside the range, and logging.
- Wrap-around of the 32-bit open count and of the counts returned as signed values by the ASR and GR5xx reads.
- A close that runs concurrently with a read or write, and writes, baud rate and attribute operations.
- The reader's tail update is one step: no other thread reads or writes the tail.
- The GR5xx lifecycle beyond what it shares with ASR: its receive semaphore, and the use of a semaphore
  call to delete mutexes.
- BES non-DMA reads and writes, and failures of semaphore creation.
- Zeroing of the BES DMA buffer between transfers, which no reader can observe.
- UartBes.BesUart.HalUartRecv: time is the schedule's verdict that the limit has passed after a wait;
  the millisecond counter and its wrap-around are not modelled.
- Rounding of double arithmetic in the PWM driver, a prescaler of 2^32 - 1, whose successor wraps to zero,
  and a compare value above the 32-bit range for a duty far above the period.
- Register writes, clocks, pin multiplexing and interrupt priorities of all drivers.
- Process title, priorities, message loop and memory hooks of the driver host; allocator settings are
  only recorded.
- The enable, debounce and handler fields that the GPIO driver copies into its own table and never reads;
  configuration reads that fail half-way.
- SpiRecv.SpiContext.HalSpiRecv: a window whose call or DMA wait fails is left unwritten, while the
  hardware may have written part of it; a completion that comes after its wait has timed out, and posts
  the semaphore for the next call, is not modelled.
- Rejection of a looped-back CAN message by the core, and the identifier fields of messages.
