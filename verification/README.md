# Verified model of the hardware test stand

This project models, in Dafny, the parts of the hardware test repository that keep state or translate
text, and proves what they are for. `dafny verify dfyconfig.toml` checks all of it.

- **Serial console stack.** The agent on the remote host frames request lines with a size limit and
  drives at most one serial device (`AgentMain`, `SerialAgent`, `AgentProtocol`). The client sends
  requests, takes response lines off a byte stream that is cut anywhere, and buffers device bytes
  (`SerialChannel`, which holds client, both byte streams, agent and device together; `SerialLink` is
  the pair of streams as a value and says which answer a call gets, `SerialProgram` what programs over
  it read and write). The host of the agent records every call that is made on it and on its devices,
  with what came of it. On top of it a console session submits commands with a marker and recovers
  output and exit status (`Console`), with the nested shell quoting that this needs (`ShellQuoting`) and
  a small shell that runs the submitted line (`Shell`); `AgentConsole` puts the two together, from the
  command to the device's bytes and back. `Base64` and `Json` are shared.
- **Operation coordinator of the test runner service.** `Coordinator` is a state machine whose steps
  are the stretches of code between two awaits; starts, cancellations, shutdowns, resumptions, crashes
  and restarts interleave freely. `Outcomes` says of every run, from what the awaited commands came to,
  when an operation is over and what is then recorded. `Worker` is the object whose methods do those
  steps in place, each proved to do exactly the step. `StateStore` cuts a write of the state file into primitive disk steps,
  with a crash possible after each. `Operations` holds the recorded states.
- **Smaller pieces.** The reentrant lock around a transport (`Synchronized`), the stand with connect
  rollback and its factory (`Stand`), ordered marker scenarios (`Markers`), signed session values
  (`Session`) and the Java properties file of the run metadata (`Properties`).

Where the source loops or updates fields, the model does so too: such a method is proved against a
specification function or state machine, and the properties are proved of that. Time, randomness and
the behaviour of devices, processes and disks are parameters or free choices: a polling loop consumes
one event for each pass before its deadline, fresh tokens are parameters, and any operation of a device
may fail.

Some of what one might expect of the code is not so; the exact conditions are proved:

- A response is matched to a request by order alone. A call that takes a response takes the answer to the
  oldest unanswered request, so it gets its own answer if and only if every earlier call that sent its
  request took a response (`SerialLink.OwnAnswerExactlyWhenNoneLost`); after a client-side timeout the
  client stays behind for good, and a run is given in which a reset returns the greeting
  (`SerialLink.LateAnswerIsTaken`). The theorems about device bytes therefore speak of a client with
  nothing outstanding (`InStep`).
- An image operation does not look at the cancel flag again after the inspection. At the moment of a
  cancellation it is decided whether the operation can still record SUCCEEDED: if and only if its task
  waits for the inspection and no shutdown is pending (`Coordinator.SucceededAfterCancel`); a whole run
  that does it is `Coordinator.CancelledYetSucceeded`. PASSED and FAILED never follow a cancellation.
- A report path that resolves outside the session directory loses the exit code of the tests. So does a
  shutdown that is delivered while the exit code is being carried, and a crash; as long as the
  task goes on, nothing else does (`Coordinator.ExitCodeCarried`, `Coordinator.ExitCodeInRun`); a run that
  loses it is `Coordinator.EscapingPathLosesCode`.
- A close that raises while a failed connect is rolled back hides the cause and leaves the remaining
  devices connected (`Stand.RollbackStopsAtARaisingClose`); a failed connect leaves nothing connected if
  and only if no close raised (`Stand.NothingConnectedExactly`).
- A JSON integer timeout too large for a float makes the agent's validation raise something other than
  its protocol error; nothing else does (`AgentProtocol.ValidateCrashes`). The agent then ends without
  a response to that line and serves nothing behind it (`AgentMain.OverflowEndsService`).
- Decoding a session value raises instead of rejecting it for a signature outside ASCII
  (`Session.DecodingRaisesExactly`).

## Model

| member | source | states |
|---|---|---|
| Base64.RegroupRoundTrip | helpers/serial-agent/src/hardware_serial_agent/protocol.py:125-139 | Regrouping bytes into six-bit values and back loses nothing, for every length |
| Base64.EncodeLength | helpers/serial-agent/src/hardware_serial_agent/protocol.py:137-139 | The encoded text has four characters for every three bytes begun |
| Base64.SymbolIsInAlphabet | helpers/serial-agent/src/hardware_serial_agent/protocol.py:137-139 | The symbols of the values 0 to 63 are the 64 characters of the standard alphabet, in order |
| Base64.EncodeGroup | helpers/serial-agent/src/hardware_serial_agent/protocol.py:137-139 | Each three bytes become the four characters that write the same 24-bit number |
| Base64.EncodeEnd | helpers/serial-agent/src/hardware_serial_agent/protocol.py:137-139 | One or two bytes at the end become two or three characters of their number and the padding |
| Base64.StrictRoundTrip | helpers/serial-agent/src/hardware_serial_agent/protocol.py:125-139 | Strict decoding undoes encoding for every payload, padding included |
| Base64.ScanCollects | helpers/test-runner-service/src/test_runner_service/auth.py:409-410 | The lenient decoder returns every symbol when exactly the missing padding follows, from any position in a group |
| Base64.UrlRoundTrip | helpers/test-runner-service/src/test_runner_service/auth.py:405-410 | Stripping the padding and restoring (-length mod 4) of it is lossless through the URL-safe alphabet |
| Base64.UrlIsTranslated | helpers/test-runner-service/src/test_runner_service/auth.py:405-406 | The URL-safe text is the standard text with - for +, _ for / and no padding |
| Base64.UrlAlphabet | helpers/test-runner-service/src/test_runner_service/auth.py:405-406 | The unpadded text contains neither a dot nor an equals sign |
| AgentProtocol.ValidateAccepts | helpers/serial-agent/src/hardware_serial_agent/protocol.py:57-134 | The validators together give an action if and only if the request has exactly that action's fields with values of the right type and range, and a device is open or not as the action needs |
| AgentProtocol.DeviceAccepted | helpers/serial-agent/src/hardware_serial_agent/agent.py:131-142 | A device path is accepted if and only if it has one or at least three slashes in front, no control character, and parts that name something below dev without going up |
| AgentProtocol.PathPartsAre | helpers/serial-agent/src/hardware_serial_agent/agent.py:131-142 | The parts of a path are what lies between its slashes, without empty ones and the current directory |
| AgentProtocol.RejectionCode | helpers/serial-agent/src/hardware_serial_agent/protocol.py:57-134 | Which error code a rejected request is answered with, for every request |
| AgentProtocol.ValidateCrashes | helpers/serial-agent/src/hardware_serial_agent/protocol.py:111-122 | Validation raises something other than its own error if and only if a read that is otherwise in order has an integer timeout that no float can hold |
| AgentProtocol.OverflowExample | helpers/serial-agent/src/hardware_serial_agent/protocol.py:111-122 | Such a request, with the largest timeout that is still rejected properly beside it |
| AgentProtocol.PayloadRoundTrip | helpers/serial-agent/src/hardware_serial_agent/protocol.py:125-139 | The encoded form of a payload decodes to it if and only if it has 1 to 262144 bytes; each other case gets its own error code |
| AgentProtocol.MessagesFit | helpers/serial-agent/src/hardware_serial_agent/protocol.py:8-12 | The write request for any accepted payload fits the agent's line limit, and the largest read answer fits the client's response limit |
| SerialAgent.SerialAgent.Handle | helpers/serial-agent/src/hardware_serial_agent/agent.py:52-75 | Every created connection except the current one has been closed exactly once; device bytes move only through the current one; the calls made on the host and its devices are exactly those that the request needs, and the outcome is decided by what they came to; a request that validation rejects calls nothing and changes nothing |
| SerialAgent.SerialAgent.Open | helpers/serial-agent/src/hardware_serial_agent/agent.py:84-99 | A second open is refused; otherwise the path is checked and then opened, at the rate asked for; a failing check or factory leaves no connection, and success adds exactly one |
| SerialAgent.SerialAgent.Write | helpers/serial-agent/src/hardware_serial_agent/agent.py:101-106 | The device is asked once to write the payload and takes a beginning of it, and the response reports how much |
| SerialAgent.SerialAgent.Read | helpers/serial-agent/src/hardware_serial_agent/agent.py:108-113 | The device is asked once with the size and timeout of the request; the response carries exactly the bytes that it gave, at most that size |
| SerialAgent.SerialAgent.ResetInput | helpers/serial-agent/src/hardware_serial_agent/agent.py:115-118 | Answered ok exactly when the input buffer of the open device was reset once and that call returned; no byte moves |
| SerialAgent.SerialAgent.ResetOutput | helpers/serial-agent/src/hardware_serial_agent/agent.py:120-123 | The same for the output buffer |
| SerialAgent.SerialAgent.Close | helpers/serial-agent/src/hardware_serial_agent/agent.py:77-82 | Afterwards there is no connection and every one ever created has been closed exactly once, even when closing raises |
| SerialAgent.OutcomeOfCalls | helpers/serial-agent/src/hardware_serial_agent/agent.py:52-129 | A valid request for the device makes exactly the call it names and is answered ok only if it returned, with serial_io if and only if it raised an I/O error, and crashes the agent if and only if it raised anything else |
| AgentMain.FramingIsLossless | helpers/serial-agent/src/hardware_serial_agent/__main__.py:18-57 | The logical lines of an input concatenate to the input |
| AgentMain.LinesEndAtNewlines | helpers/serial-agent/src/hardware_serial_agent/__main__.py:18-57 | Each logical line is non-empty and ends at its first newline; only the last may lack one |
| AgentMain.DiscardLineRemainder | helpers/serial-agent/src/hardware_serial_agent/__main__.py:52-57 | Skipping an overlong line ends exactly where the next line begins |
| AgentMain.ServeLine | helpers/serial-agent/src/hardware_serial_agent/__main__.py:24-38 | One line gets the answer it calls for: too large, undecodable, or handled as a request |
| AgentMain.RejectedLine | helpers/serial-agent/src/hardware_serial_agent/__main__.py:24-38 | A line that asks for no action gets a structured error with the code of its fault, by its length, by what its JSON is, or by the checks of the request, and touches no device |
| AgentMain.ServeNext | helpers/serial-agent/src/hardware_serial_agent/__main__.py:21-38 | One pass of the loop serves exactly the next logical line of the input, or finds it exhausted; the devices change by exactly the recorded effect |
| AgentMain.Run | helpers/serial-agent/src/hardware_serial_agent/__main__.py:18-57 | Both loops terminate; the output is one response for each logical line, in order, up to and including the first that asks to stop; there is one connection for each open in the history, with exactly the bytes the history says, each closed exactly once; the host was called exactly as the history says and then to close what was open; an exception leaves if and only if the last line crashed or the final close raised |
| AgentMain.CrashCauses | helpers/serial-agent/src/hardware_serial_agent/__main__.py:24-38 | A line crashes the agent only when reading its JSON raised, its timeout overflowed, or the device raised something unexpected |
| AgentMain.OverflowEndsService | helpers/serial-agent/src/hardware_serial_agent/__main__.py:18-41 | An overflowing timeout ends the process without a response to its line, and nothing behind it is served |
| AgentMain.OutputLines | helpers/serial-agent/src/hardware_serial_agent/__main__.py:34-38 | A reader that splits the output at newlines gets back exactly the responses |
| AgentMain.OneResponsePerLine | helpers/serial-agent/src/hardware_serial_agent/__main__.py:18-57 | The output has one line for each line served, the i-th being the answer to the i-th line of the input; only a line that crashed the agent has none, and every line is served unless an earlier one stopped or crashed it |
| SerialChannel.WriteAcknowledged | src/hardware_test/transport/serial_agent.py:44-51 | An answer that reports the full count means that the device took exactly the payload |
| SerialChannel.PartlyAcknowledged | src/hardware_test/transport/serial_agent.py:44-51 | An accepted answer that reports another count means that the device took fewer bytes |
| SerialChannel.ReadAnswered | src/hardware_test/transport/serial_agent.py:53-66 | An accepted read answer carries exactly the bytes the exchange took from the device; a rejected one took none |
| SerialChannel.Accounts | src/hardware_test/transport/serial_agent.py:53-66 | One more exchange adds to what the devices gave and to what the newest one took exactly its effect |
| SerialChannel.ReadAccounted | src/hardware_test/transport/serial_agent.py:58-65 | The data decoded from an accepted answer is what that read took from the device, and a read writes nothing |
| SerialChannel.ReadIsAccepted | src/hardware_test/transport/serial_agent.py:58-58 | The client's read request passes the agent's validation when a device is open |
| SerialChannel.WriteIsAccepted | src/hardware_test/transport/serial_agent.py:44-46 | The client's write request passes the agent's validation if and only if it carries 1 to 262144 bytes |
| SerialChannel.ResetAnswered | src/hardware_test/transport/serial_agent.py:77-80 | An accepted reset found a device open, reset its input buffer once, and moved no byte |
| SerialChannel.OpenAnswered | src/hardware_test/transport/serial_agent.py:40-42 | An accepted open found no device open, checked and opened exactly the device and rate asked for, and leaves it open, untouched |
| SerialChannel.CloseAnswered | src/hardware_test/transport/serial_agent.py:82-90 | An accepted close closes the device if there was one, leaves none open and stops the agent |
| SerialChannel.HelloAnswered | src/hardware_test/transport/serial_agent.py:32-38 | An accepted hello carries the version of the agent |
| SerialChannel.OnlyReadsGive | src/hardware_test/transport/serial_agent.py:53-66 | No request but a read takes bytes from the device |
| SerialChannel.VersionOfResponse | src/hardware_test/transport/serial_agent.py:98-99 | Every response the agent writes, errors included, carries the version the client checks |
| SerialChannel.ErrorReachesCaller | src/hardware_test/transport/serial_agent.py:133-140 | A failure of the agent is raised by the client with the code and the message that the agent gave it |
| SerialLink.WholeResponse | src/hardware_test/transport/serial_agent.py:104-120 | However the responses were cut into chunks, the first newline in the buffer completes exactly the first of them |
| SerialLink.TakesFirstLine | src/hardware_test/transport/serial_agent.py:104-131 | Taking a response takes exactly the bytes up to the first newline, and is a response if and only if they are the text of a JSON object |
| SerialLink.QuietTransitive | src/hardware_test/transport/serial_agent.py:104-120 | Any amounts of progress of the agent and of arrival add up to one, with no byte lost or reordered |
| SerialLink.LinesAreFirst | helpers/serial-agent/src/hardware_serial_agent/__main__.py:24-38 | Lines cut off the front of the stream of requests are the first requests, one for one |
| SerialLink.QueueConsume | src/hardware_test/transport/serial_agent.py:104-120 | The first line in the buffer is the response to the oldest unanswered request |
| SerialLink.CallKeepsQueue | src/hardware_test/transport/serial_agent.py:92-120 | Every call, answered or not, keeps requests and responses in one queue and takes only from its front |
| SerialLink.AnswersLagBehind | src/hardware_test/transport/serial_agent.py:92-120 | Over any sequence of calls the client is behind by exactly the number of calls that sent and took nothing |
| SerialLink.OwnAnswerExactlyWhenNoneLost | src/hardware_test/transport/serial_agent.py:92-120 | A call gets the answer to its own request if and only if no earlier call was lost; otherwise the one sent as many requests earlier |
| SerialLink.LateAnswerIsTaken | src/hardware_test/transport/serial_agent.py:92-120 | A run: a hello times out, and a reset without a device then returns normally with the greeting, which is no possible answer to it |
| SerialChannel.SerialAgentChannel.ReadResponse | src/hardware_test/transport/serial_agent.py:104-120 | Takes the first whole line that arrives off the link and nothing else, or leaves the link to itself; it gives up only with the agent gone, with too much in the buffer, or with all of its polls spent |
| SerialChannel.SerialAgentChannel.Converse | src/hardware_test/transport/serial_agent.py:92-97 | Whatever happens, what it does is one call on the link |
| SerialChannel.SerialAgentChannel.Request | src/hardware_test/transport/serial_agent.py:92-102 | In step, a normal return or a structured error is the answer to this request, which the agent served; out of step, that of the oldest unanswered one, and the queue is kept; a failure has its cause |
| SerialChannel.SerialAgentChannel.RequestAll | src/hardware_test/transport/serial_agent.py:92-120 | Any requests in a row, answered or not, are a sequence of calls on the link, and each answer tells how its call ended |
| SerialChannel.OwnAnswerFromAnswers | src/hardware_test/transport/serial_agent.py:92-120 | When every answer so far is a value or a structured error, each is the response to its own request |
| SerialChannel.SerialAgentChannel.SendAll | src/hardware_test/transport/serial_agent.py:44-51 | In step, a normal return means that the agent served exactly this write and the device took exactly the payload after everything it took before; a partial write is reported only when the device took less |
| SerialChannel.SerialAgentChannel.RecvReady | src/hardware_test/transport/serial_agent.py:53-66 | In step with nothing buffered, a normal return has served exactly one read of 65535 bytes with a timeout of 0.05 s, and what it gave is buffered now; without that the answer is no, and the channel is closed or the agent has exited. With something buffered it says so and asks nobody |
| SerialChannel.SerialAgentChannel.Recv | src/hardware_test/transport/serial_agent.py:68-72 | Takes the oldest bytes, as many as asked for or buffered, and loses none |
| SerialChannel.SerialAgentChannel.ResetInput | src/hardware_test/transport/serial_agent.py:77-80 | Empties the local buffer and restarts the accounting; in step, a normal return means that the agent served exactly this request and reset the input buffer of its device |
| SerialChannel.SerialAgentChannel.Negotiate | src/hardware_test/transport/serial_agent.py:32-38 | In step, a normal return is the version of the agent; any other answer raises |
| SerialChannel.SerialAgentChannel.Open | src/hardware_test/transport/serial_agent.py:40-42 | In step, a normal return means that the agent served exactly the open of this device at this rate, where none was open, and has it, untouched so far |
| SerialChannel.SerialAgentChannel.Close | src/hardware_test/transport/serial_agent.py:82-90 | Unless the channel is closed or the agent gone, the close request is one call on the link; the SSH channel is closed whatever comes of it |
| SerialChannel.SerialAgentChannel.Perform | src/hardware_test/transport/serial_agent.py:44-80 | One call that returns normally passes on exactly the bytes it must, and has had the agent serve exactly the requests that it needs |
| SerialChannel.SerialAgentChannel.Drive | src/hardware_test/transport/serial_agent.py:44-80 | For any program of sends, polls, receives and resets whose calls return normally, the device has taken exactly the payloads, in order and once each, every result is what that call returns of the bytes the devices gave during each of the calls, and the agent, if it was there, has served exactly the requests of the calls, a read for every poll with nothing buffered among them |
| SerialProgram.NoByteLost | src/hardware_test/transport/serial_agent.py:53-80 | Between resets no byte is lost, doubled or reordered: what was buffered and what the devices gave is what the calls returned and what is buffered |
| ShellQuoting.QuoteIsOneWord | src/hardware_test/models/command.py:43-57 | Under sections 2.2.2 and 2.2.3 of the POSIX Shell Command Language a quoted string is one word equal to the string, whatever it contains |
| ShellQuoting.SudoQuotingRoundTrip | src/hardware_test/models/command.py:47-50 | The non-interactive sudo text splits into the five fixed words and exactly the query |
| ShellQuoting.TextWords | src/hardware_test/models/command.py:43-57 | The words of a command's text: sudo is in front exactly when asked for, and the query is one word exactly for the non-interactive form |
| ShellQuoting.EvalQuotingRoundTrip | src/hardware_test/transport/console.py:73-78 | The submitted line gives eval one argument, equal to the text of the command |
| ShellQuoting.EscapedOccurrence | src/hardware_test/transport/console.py:73-78 | Quoting cannot create an occurrence of a quote-free text that was not there before |
| Shell.EvalRuns | src/hardware_test/transport/console.py:73-78 | Running eval with the quoted text runs exactly that text |
| Shell.StatusIsSaved | src/hardware_test/transport/console.py:73-78 | The assignment behind it keeps the status of the command before it |
| Shell.QuotedAssignmentRuns | src/hardware_test/transport/console.py:73-78 | Assigning a quoted text gives the variable exactly that text |
| Shell.PrintfRuns | src/hardware_test/transport/console.py:73-78 | The printf prints a newline, the token, the value of the variable and a newline |
| Console.NormalizeInOnePass | src/hardware_test/transport/console.py:163-165 | The two replacements amount to one left-to-right pass |
| Console.NormalizePrefix | src/hardware_test/transport/console.py:163-165 | Further input only extends the normalized text, even when a CRLF is split between chunks |
| Console.TerminalRoundTrip | src/hardware_test/transport/console.py:163-165 | Normalizing undoes a terminal's translation of newlines |
| Console.SearchFindsMarker | src/hardware_test/transport/console.py:145-152 | What the search returns is newline, token, number, newline |
| Console.SearchIsLeftmost | src/hardware_test/transport/console.py:145-152 | No marker starts before the one found |
| Console.SearchIsStable | src/hardware_test/transport/console.py:144-155 | Once a marker is complete no later byte can create an earlier one |
| Console.ReadCommandResponse | src/hardware_test/transport/console.py:144-161 | Returns at the first poll after which marker and prompt are there, with that text and status; reports a closed channel or a timeout exactly otherwise |
| Console.ReadIsDetermined | src/hardware_test/transport/console.py:144-161 | The polls determine the response: no two outcomes meet the specification of the read |
| Console.ChunkingIndependence | src/hardware_test/transport/console.py:144-161 | Two reads of one stream that both return give the same text and exit status, however each was cut |
| Console.DigitsRoundTrip | src/hardware_test/transport/console.py:155-155 | The number printed for a status is read back as that status |
| Console.SubmittedRuns | src/hardware_test/transport/console.py:71-79 | A shell that runs the submitted line, whatever its state, prints what the command prints and then the marker with the status that the command ended with, and is left with the configured prompt |
| Console.AnswersAre | src/hardware_test/transport/console.py:66-88 | So what a terminal with a shell sends for the line is the echo, the output, the marker with the status, and the prompt |
| Console.SubmittedHidesMarker | src/hardware_test/transport/console.py:71-79 | No line of the echoed command but the first begins with the token, so the echoed printf is never the marker |
| Console.FirstMarker | src/hardware_test/transport/console.py:144-155 | In echo, output, marker and prompt the only marker is the printed one |
| Console.EchoRemoved | src/hardware_test/transport/console.py:167-172 | With or without an echo, what remains is the output without its leading newlines |
| Console.CommandRoundTrip | src/hardware_test/transport/console.py:66-88 | What a terminal with a shell sends for the submitted line is a complete answer with the status and the output of the command |
| Console.Execute | src/hardware_test/transport/console.py:66-88 | When everything that a terminal with a shell sends for the submitted line has arrived in time, in any chunks, the result is the exit status of the command and its output without leading newlines; in any case the execution is the one that the polls determine; a closed channel submits nothing |
| Console.ReadAgrees | src/hardware_test/transport/console.py:66-88 | Whatever the polls were, a result is the output and status of every terminal text that begins with the received data, and there is one once all of it arrived |
| AgentConsole.ReadAnswer | src/hardware_test/transport/console.py:144-161 | Reading over the channel gives what the polls determine, of exactly the oldest bytes that were buffered and that the devices gave; every poll asks the channel once and takes all that is there up to a full chunk; the time is up only after all passes, and a failure has its cause |
| AgentConsole.Execute | src/hardware_test/transport/console.py:66-88 | Over the channel in step, the device takes exactly the submitted line, and the execution agrees with the bytes that came back and is the one that the polls determine; without a result the agent was gone or all passes went by, and a failure of the transport has its cause |
| AgentConsole.CommandOverAgent | src/hardware_test/transport/console.py:66-88 | When what the device gave during the call is what a terminal with a shell sends for the submitted line, and was read, the call returned the status and the output of the command |
| StateStore.WriteProgress | helpers/test-runner-service/src/test_runner_service/state.py:26-34 | Until the rename the current file is untouched; with it the whole new text is current and flushed |
| StateStore.CrashDuringWrite | helpers/test-runner-service/src/test_runner_service/state.py:19-34 | A crash after any primitive step leaves the whole old or the whole new state, the new one exactly when the rename was done |
| StateStore.CrashDuringWrites | helpers/test-runner-service/src/test_runner_service/state.py:19-34 | A crash after any primitive step of any number of writes leaves whole the last state whose rename was done |
| StateStore.Recovery | helpers/test-runner-service/src/test_runner_service/main.py:49-56 | After any number of startups that crashed anywhere, one complete startup leaves the first state found; if that was active it is INTERRUPTED, with the restart message and every other field as found |
| StateStore.StateStore.Write | helpers/test-runner-service/src/test_runner_service/state.py:26-34 | The new state is stored, and what was done to the disk for it is exactly truncate, appends, flush and rename, in this order |
| StateStore.CrashAnytime | helpers/test-runner-service/src/test_runner_service/state.py:19-34 | Whenever the process of a store dies, the next one finds the last state renamed until then, or what the first one found |
| StateStore.StateStore.MarkStoredInterrupted | helpers/test-runner-service/src/test_runner_service/state.py:41-52 | An active state becomes the same state with status INTERRUPTED and the restart message, by one write; for an absent or terminal one nothing is done to the disk |
| Coordinator.StretchWrites | helpers/test-runner-service/src/test_runner_service/worker.py:125-243 | A stretch of the task writes only about its own operation; a terminal state is its last write and ends the task; its outcome agrees with the cancel flag |
| Coordinator.NextKeepsInv | helpers/test-runner-service/src/test_runner_service/worker.py:94-123 | Every step, crashes and restarts included, keeps the invariant between task, store, cancel flag and history |
| Coordinator.RunKeepsInv | helpers/test-runner-service/src/test_runner_service/worker.py:94-243 | The invariant holds at every point of every interleaving |
| Coordinator.StoreAgreesWithTask | helpers/test-runner-service/src/test_runner_service/worker.py:112-123 | While a task is unfinished the stored state is non-terminal and carries its operation id; a task that returned has written exactly one terminal state; no operation ever has two |
| Coordinator.AtMostOneUnfinishedTask | helpers/test-runner-service/src/test_runner_service/worker.py:112-123 | At most one unfinished task exists, and it is the one the coordinator refers to |
| Coordinator.BusyReportsTheActiveOperation | helpers/test-runner-service/src/test_runner_service/worker.py:113-119 | A refused start changes nothing and reports the unfinished operation |
| Coordinator.TerminalStateStays | helpers/test-runner-service/src/test_runner_service/worker.py:307-323 | A terminal state stays stored until the next start, restarts included |
| Coordinator.CancellationHonoured | helpers/test-runner-service/src/test_runner_service/worker.py:94-101 | CANCELLED is recorded only for an operation whose own cancellation was accepted; PASSED or FAILED never for such a one |
| Coordinator.FlagBelongsToCurrentOperation | helpers/test-runner-service/src/test_runner_service/worker.py:94-123 | The shared flag is set exactly when the current operation's own cancellation was accepted |
| Coordinator.RestartInRun | helpers/test-runner-service/src/test_runner_service/state.py:41-52 | A restart in a run records an active state as INTERRUPTED, otherwise as it was, and changes no other stored state |
| Coordinator.SucceededOnlyAfterLateCancel | helpers/test-runner-service/src/test_runner_service/worker.py:94-154 | In any run SUCCEEDED is recorded for a cancelled operation only if every cancellation accepted for it found its task waiting for the inspection, with no shutdown pending |
| Coordinator.SucceededAfterCancel | helpers/test-runner-service/src/test_runner_service/worker.py:94-154 | When a cancellation is accepted, some continuation records SUCCEEDED for its operation if and only if the task then waits for the inspection with no shutdown pending |
| Coordinator.CancelledYetSucceeded | helpers/test-runner-service/src/test_runner_service/worker.py:139-154 | A run in which an operation succeeds after its cancellation was accepted |
| Coordinator.ExitCodeCarried | helpers/test-runner-service/src/test_runner_service/worker.py:176-297 | Every stretch after the test command carries the exit code on or records it with the verdict it calls for, except the one that resolves an escaping report path, which records none, and a shutdown, which records nothing |
| Coordinator.ExitCodePreserved | helpers/test-runner-service/src/test_runner_service/worker.py:161-243 | Over a whole task with no escaping path the last write has the exit code and CANCELLED, PASSED or FAILED, whatever lookups, reports and publishing do |
| Coordinator.ExitCodeInRun | helpers/test-runner-service/src/test_runner_service/worker.py:161-297 | In every run: once the test command has completed with a code, with no shutdown of the operation and no escaping path from then on, the task that has returned has left that code stored with its verdict |
| Coordinator.EscapingPathLosesCode | helpers/test-runner-service/src/test_runner_service/worker.py:203-239 | A run in which the test command completes with code 0 and the recorded state has no exit code |
| Outcomes.StartInRun | helpers/test-runner-service/src/test_runner_service/worker.py:51-92 | A start that finds no unfinished task records the active state of its kind of operation with the container it names and no result, and starts its task with the cancel flag clear |
| Outcomes.OutcomeInRun | helpers/test-runner-service/src/test_runner_service/worker.py:125-323 | In every run: the task of an operation has returned exactly when the results of its awaits decide the outcome; then the stored state has, in every field, the outcome that these results, the cancel flag at those moments and the files found call for; until then its active state is stored with the container that runs for it; nothing else is ever written as its outcome but an interruption |
| Outcomes.SucceededExactly | helpers/test-runner-service/src/test_runner_service/worker.py:125-159 | In every run: SUCCEEDED is written for an operation if and only if it prepares an image, its command ended with 0 and was not cancelled by then, and the inspection ended with 0 and printed more than white space |
| Outcomes.DigestIsLastLine | helpers/test-runner-service/src/test_runner_service/worker.py:148-154 | The recorded digest is the last line of the inspection's output without the white space around it |
| Outcomes.ImageStretchRecords | helpers/test-runner-service/src/test_runner_service/worker.py:125-159 | The last stretch of an image operation records CANCELLED, FAILED, SUCCEEDED, TIMED_OUT or INFRASTRUCTURE_ERROR with exit code, digest and message exactly as its results call for |
| Outcomes.VerdictRecords | helpers/test-runner-service/src/test_runner_service/worker.py:176-228 | A test run with a verdict records the command's exit code; the summary exactly when the JUnit report was read, and that one; and PUBLISHED exactly when the publisher ended with 0 |
| Outcomes.CancelInRun | helpers/test-runner-service/src/test_runner_service/worker.py:94-101 | A cancellation with an active state stored and a task there is seen by every later turn of that operation; any other changes nothing |
| Outcomes.ShutdownInRun | helpers/test-runner-service/src/test_runner_service/worker.py:103-110 | A task that a shutdown cancels ends without a write; what was stored stays, and no outcome but an interruption is ever recorded |
| Worker.OperationCoordinator.constructor | helpers/test-runner-service/src/test_runner_service/main.py:49-56 | Coming up on any store gives an initial state of the machine; an active state found is INTERRUPTED with the restart message and otherwise unchanged |
| Worker.OperationCoordinator.Start | helpers/test-runner-service/src/test_runner_service/worker.py:112-123 | Does the Start step; answers busy with the stored state, or accepts |
| Worker.OperationCoordinator.CancelBegin | helpers/test-runner-service/src/test_runner_service/worker.py:94-101 | Does the first half of cancel: accepted exactly when a task exists and the stored state is not terminal |
| Worker.OperationCoordinator.ShutdownCancel | helpers/test-runner-service/src/test_runner_service/worker.py:103-110 | Does the second half of shutdown to the task it found, if that one still runs |
| Worker.OperationCoordinator.ExecuteImageOperation | helpers/test-runner-service/src/test_runner_service/worker.py:125-159 | The image operation from one await to the next is the machine's stretch |
| Worker.OperationCoordinator.CollectReports | helpers/test-runner-service/src/test_runner_service/worker.py:185-224 | What follows the test command and the lookup is the machine's stretch |
| Worker.OperationCoordinator.ExecuteTestRun | helpers/test-runner-service/src/test_runner_service/worker.py:161-243 | The test run from one await to the next is the machine's stretch |
| Worker.OperationCoordinator.ResumeTask | helpers/test-runner-service/src/test_runner_service/worker.py:125-243 | A resumption of the task is the ResumeTask step; a pending shutdown is delivered instead |
| Worker.OperationCoordinator.Drive | helpers/test-runner-service/src/test_runner_service/worker.py:94-243 | Any feasible interleaving of the pieces on the object is a run of the machine and keeps its invariant |
| Worker.CrashLeavesAWrite | helpers/test-runner-service/src/test_runner_service/worker.py:307-323 | A process that dies in the middle of its writes leaves one of the states of the machine's history whole, the last one renamed |
| Synchronized.NextKeepsInv | src/hardware_test/transport/synchronized.py:23-42 | Every step keeps: the lock's depth is the number of open frames of its owner, and nobody else has any |
| Synchronized.CallsDoNotOverlap | src/hardware_test/transport/synchronized.py:23-36 | In the global history the start of a wrapped call is followed by the end of that call |
| Synchronized.ExclusiveIsContiguous | src/hardware_test/transport/synchronized.py:38-42 | While a thread has a frame open the next event is its own |
| Synchronized.LockFollowsFrames | src/hardware_test/transport/synchronized.py:23-42 | A thread owns the lock exactly while it has open frames, counted from the history alone |
| Synchronized.LeavingFreesAtTheOutermost | src/hardware_test/transport/synchronized.py:38-42 | Leaving a frame, normally or by an exception, frees the lock if and only if it is the outermost |
| Synchronized.SynchronizedTransport.Wrapped | src/hardware_test/transport/synchronized.py:23-36 | A wrapped call leaves lock and frames as they were and is one contiguous pair in the history |
| Markers.FirstDuplicate | src/hardware_test/scenarios.py:82-89 | None exactly for distinct values; otherwise the value at the first position that repeats an earlier one |
| Markers.ValidateMarkers | src/hardware_test/scenarios.py:33-46 | Accepts exactly non-empty lists whose stripped names are valid and distinct, and returns the stripped names; otherwise the first invalid name, or else the first repeated one |
| Markers.Session.Group | src/hardware_test/pytest_plugin.py:216-231 | Distributes the items over their single steps, or stops at the first item of two steps, if and only if there is one |
| Markers.Session.ApplyMarkerSequence | src/hardware_test/pytest_plugin.py:209-240 | Raises for the first item of two steps, or else for the first step without an item, exactly when there is one, and then changes nothing; otherwise the items are the grouped ones and the others are reported |
| Markers.CoveredMarkersAreDistinct | src/hardware_test/pytest_plugin.py:216-236 | A normal return means that no marker was listed twice |
| Markers.OrderIsTheStableSort | src/hardware_test/pytest_plugin.py:233-240 | The resulting list is the stable sort of the selected items by the index of their marker, and the only one |
| Markers.NothingIsLost | src/hardware_test/pytest_plugin.py:209-240 | Selected and deselected items together are the collected ones as a multiset |
| Stand.UniqueKeepsFirstOccurrences | src/hardware_test/stand/stand.py:77-80 | Every device occurs once, in the order of first occurrence |
| Stand.TestStand.Connect | src/hardware_test/stand/stand.py:54-64 | Connects each distinct device once in order; when the k-th connect raises, the k-1 earlier ones are closed in reverse until a close raises, and the right error is raised |
| Stand.TestStand.Close | src/hardware_test/stand/stand.py:66-75 | Attempts to close every device in reverse whatever raises, and raises the first error |
| Stand.ConnectIsAllOrNothing | src/hardware_test/stand/stand.py:54-64 | With closes that do not raise, either every device is connected, or the earlier ones were closed exactly once in reverse and none is connected |
| Stand.RollbackStopsAtARaisingClose | src/hardware_test/stand/stand.py:60-64 | A close that raises in the rollback replaces the cause and leaves exactly it and the devices before it connected |
| Stand.NothingConnectedExactly | src/hardware_test/stand/stand.py:54-64 | For any behaviour of the devices, a connect that raises leaves nothing connected if and only if no close raised |
| Stand.CloseLeavesOnlyFailures | src/hardware_test/stand/stand.py:66-75 | After close exactly those devices remain connected that were and whose own close raised |
| Stand.StandFactory.Create | src/hardware_test/factory/stand.py:23-37 | Roles share a device if and only if they name the same physical id; the factories are asked exactly once for each id, in first-role order, with its own inventory entry; this succeeds if and only if every id is known and buildable, and otherwise the first role that is not decides the error |
| Stand.OneDevicePerPhysicalId | src/hardware_test/stand/stand.py:77-80 | The k-th device to connect is that of the k-th distinct physical id in role order |
| Session.SignedRoundTrip | helpers/test-runner-service/src/test_runner_service/auth.py:302-330 | Decoding an issued value gives back its payload, subject to nothing but its age and expiry |
| Session.PrincipalRoundTrip | helpers/test-runner-service/src/test_runner_service/auth.py:283-299 | The fields of a principal are read back as that principal |
| Session.ReadAsTime | helpers/test-runner-service/src/test_runner_service/auth.py:308-330 | What is read as the time of issue: a whole number, the whole part of a float, a truth value as 0 or 1, or a numeral; only an infinity raises |
| Session.SessionRoundTrip | helpers/test-runner-service/src/test_runner_service/auth.py:283-330 | A session value decodes to its principal exactly while 0 <= age <= lifetime and the expiry is not past, and to None at all other times |
| Session.TransactionIsNoSession | helpers/test-runner-service/src/test_runner_service/auth.py:283-299 | The signed value of a pending login is never accepted as a session |
| Session.CookieLivesAsLongAsItsValue | helpers/test-runner-service/src/test_runner_service/auth.py:269-280 | The cookie's max-age keeps it exactly as long as its value is accepted, for a session that has not expired |
| Session.OnlySignedValuesDecode | helpers/test-runner-service/src/test_runner_service/auth.py:308-330 | Whatever is accepted is a text, a dot and the signature of exactly that text, with current times |
| Session.DecodingRaisesExactly | helpers/test-runner-service/src/test_runner_service/auth.py:283-330 | Decoding raises instead of rejecting exactly for a signature outside ASCII, or a signed text whose JSON cannot be read or whose time of issue is infinite |
| Session.DecodingRaisesExample | helpers/test-runner-service/src/test_runner_service/auth.py:308-315 | A value for which decoding raises |
| Properties.Utf16IsInjective | tests/conftest.py:130-134 | Distinct texts have distinct UTF-16 code units |
| Properties.EscapeProperty | tests/conftest.py:121-135 | The collected pieces join to the escaped value, a surrogate pair giving two escapes |
| Properties.UnescapeUndoesEscape | tests/conftest.py:121-135 | Unescaping by the loader's rules gives exactly the UTF-16 code units of the value |
| Properties.EscapeIsInjective | tests/conftest.py:121-135 | Distinct values never have the same escaped form |
| Properties.EscapedIsOneLine | tests/conftest.py:121-135 | The escaped value is printable ASCII without a line end, no backslash is left open, and it starts with no white space |
| Properties.LoadUndoesFile | tests/conftest.py:106-109 | Loading the whole file gives every name and value, in order, with either newline convention |

## Left out

- JSON text syntax: a codec is any pair of functions for which reading undoes writing and writing emits no newline; for two messages also that it writes them compactly.
- Floating-point numbers in JSON are whole numbers of units of 2^-1074, so rounding of a large integer timeout on its way to a float is not modelled; it cannot bring one into range.
- Message texts of the client's and the console's own errors, and the field names in the agent's; errors are told apart by code or kind.
- UTF-8: the console's bytes are its characters, so a chunk boundary inside a multi-byte character, Unicode digits in the marker's number and Python's limit on the length of an integer text are not modelled.
- AgentConsole.Execute: says nothing of the device after a request that failed or timed out, because the channel is then out of step.
- `prepare` and `_read_until_any` of the console session: their test at chunk boundaries depends on the chunking, so what they return is not a function of the stream.
- Deadlines are finite numbers of polls, and sleeping is not modelled.
- SerialChannel.SerialAgentChannel.Close: does not state what the agent does, because almost every failure of the exchange is swallowed; CloseAnswered says it for the exchange that succeeds.
- SerialLink.OwnAnswerExactlyWhenNoneLost: does not cover calls after one whose request was sent only in part, because the rest of the stream then has no request boundaries to speak of.
- SerialChannel.SerialAgentChannel.SendAll: states nothing about what the device took after a failure or a timeout, because the code cannot know.
- ShellQuoting.SudoQuotingRoundTrip: the model's shell knows quoting, word splitting and the expansion of `$?` and of a variable in double quotes; other expansions, aliases, reserved words and here-documents are not part of it, and reading stops at an active character. The text that runs sudo with a prompt does not quote the query, and is taken as it is.
- Console.SubmittedRuns: the shell knows lists of assignments, `eval` and `printf` with the formats that occur; the command itself is any output, status and change of variables, and is taken to come back to the line; the prompt is printed as it is written, without the escapes that some shells expand in it.
- Console.CommandRoundTrip: does not cover output, prompt or echoed text with a carriage return, because line ends are normalized, nor text that contains the fresh random token.
- Coordinator.ExitCodePreserved: does not cover a ReportPortal lookup that raises; like store writes and the runner's cancel it is assumed to return.
- Artifact directories, timestamps, report messages and URLs, image references and run ids in the recorded states, and the log file.
- StateStore.Recovery: does not model the durability of the directory entry after a rename; a rename that was done survives.
- Operation ids are fresh, as random ones are; how they are drawn is not modelled.
- Waiting and fairness of locks: a thread or coroutine that has to wait takes no step until the lock is free.
- Synchronized.SynchronizedTransport.Wrapped: does not model what the wrapped transport does, which may raise or return.
- Markers: parsing of scenario files and the registration check of marker names.
- Stand.StandFactory.Create: does not model transports and device types; whether the factories raise for a configuration is a parameter.
- HMAC internals: the signature is any function with an ASCII result.
- Session.SessionRoundTrip: reads the clock as two given values, as the code reads it twice.
- Properties.LoadUndoesFile: covers names of letters, digits and underscores, which is what the run metadata has; names are not escaped by the printer.
- OIDC discovery, HTTP routes, middleware, HTML, Docker argument lists, settings validation, the event stream of the log, JUnit counting and inventory loading.
