# GET/QUIT file transfer: a Dafny model of the protocol engine

This project models the protocol engine of a small file-transfer service
written in C:
- **Client request.** A client sends `GET name\r\n` for each file it wants.
- **Success reply.** The server answers `+OK\r\n`, then the file's size and
  modification time as 32-bit big-endian words, then the file's bytes.
- **Refusal.** Otherwise the server answers `-ERR\r\n` and closes the
  connection.
- **End of session.** `QUIT\r\n` ends the session.

The model covers four parts of the C sources:

- **sockwrap.c**: the I/O loops.
  - `readn`, `Readn`, `writen`, `Writen`, `sendn`, `Sendn`, `Read`.
  - `readline_unbuffered`.
  - The buffered `readline` together with the static state of `my_read`.
- **serve.c**: the per-connection server.
  - The `serve` command loop.
  - Its single-read `Readn_timeo`.
  - The `get_file_size`/`get_file_timestamp` lookups.
- **client1/client1_main.c**: the client's request loop and its final
  `QUIT` (`main` from line 87 on).
- **recvfile.c**: the receiving side.
  - `recvfile`: the basename of the requested name, and the loop that appends
    chunks while counting `remain_data` down modulo 2^32.
  - `Recvfile`: the cleanup after a short transfer.

The modules follow those files:

- **Bytes**: bytes and `uint32_t`, the protocol's constants, and buffers
  after `memset`. It also has C strings (`strcpy`, `strstr`) and the
  `htonl`/`ntohl` codec.
- **Stream**: the socket.
  - The class `Socket` holds the scripted results of `read`, `write` and
    `sendfile`, the bytes sent to the peer and a count of `close` calls.
  - A script of arrivals stands for what the peer sends. Each arrival is
    a chunk of bytes or an error (`EINTR`, `EWOULDBLOCK` for an expired
    `SO_RCVTIMEO`, or another error). An empty script is end-of-stream.
- **SockWrap**: the loops of sockwrap.c.
  - Each loop is a method with loop invariants.
  - Each method is proved against a recursive function that states what
    one call does (`ReadnSpec`, `WritenSpec`, `Line`).
  - `my_read`'s static buffer is the class `LineReader`.
- **Serve**: one pass of the `while (1)` loop of `serve` as a function
  (`Step`), and the whole loop (`ServeSpec`). The methods `ServeOnce`,
  `ServeRequests` and `ServeConnection` do the same on the socket and a
  64-byte buffer.
- **RecvFile**: the basename, the receive loop (`RecvLoop`) and
  `recvfile`/`Recvfile`.
  - The client's files are the class `Disk`.
  - The loop method `RecvChunks` reads into a 2048-byte array.
- **Client**: the client's loop as functions over a `Machine`. A `Machine`
  holds the connection, the files and the memory of `buf`, `dimension`,
  `timestamp` and `c`. The methods (`RequestAll`, `RunClient`) work on the
  socket, the disk and four arrays.
- **ClientRuns**: what the client does with the replies a server sends.
- **Session**: the two programs together. The bytes `serve` writes for a
  request are stored by the client as the file the server holds.

Behaviour kept as the C code has it, where an idealised exact-read design
would differ:

- **Short reads.** `readn` returns a short count at end-of-stream rather
  than failing, and `Readn` passes that count through. The client does not
  check the count of its `Readn` calls. A server that closes without
  replying leaves the request in `buf`, and the client then judges it an
  invalid response (`ClientRuns.RoundWithoutReply`).
- **The server's first read.** `Readn_timeo` makes one `read`, not a loop.
  Fewer than four bytes, or none at end-of-stream, are not a silent drop:
  they reach the illegal-command branch and get `-ERR\r\n`
  (`Serve.ShortReadRefused`).
- **Unsigned stat results.** `get_file_size` and `get_file_timestamp`
  return `unsigned`, so a failed `stat` gives 2^32 - 1. The two `< 0`
  branches after them can never be taken, and the model has no such
  branch.
- **A failed `sendfile`.** `sendfile`'s -1 is stored in a `uint32_t`, so
  it is never below the size, and the session goes on after only the
  header was sent (`Serve.SendfileFailureGoesOn`).
- **`remain_data`.** The counter is unsigned: the loop stops only when it
  is exactly 0, and the loop reads before it tests. For an empty file
  (`dim` 0) the loop therefore never stops at 0. In the C program the
  printout's division by `dim` ends the process at the first chunk that
  arrives. The model leaves the printout out, so its loop reads on until
  the stream ends or fails (`RecvFile.EmptyFileReadsOn`).
- **Accesses outside an array.** The GET branch of `serve` reads
  `buf[len - 2]` for any count, and copies the name into `char
  filename[30]` whatever its length. For a count below 2, or a name of 30
  bytes or more, the C program's behaviour is undefined. `Serve.GetStep`
  ends the pass there with `Undefined`, writing nothing
  (`Serve.GetLineJudged`, `Serve.CrlfCheckUnderflows`,
  `Serve.StrcpyOverflows`). The intended test and storage are stated apart
  from it (`Serve.EndsWithCrlf`, `Serve.CrlfAccepts`, `Serve.NameFits`).
- **Short transfers.** `Recvfile` removes the name as requested, not the
  basename that was written. A partial file requested with a directory
  part stays on disk (`RecvFile.ShortTransferKeepsFile`).

## Model

| member | source | states |
|---|---|---|
| Bytes.Wrap32 | recvfile.c:52 | The conversion to `uint32_t` yields a value congruent to its input modulo 2^32, and the input itself when it is in range. |
| Bytes.Pad | client1/client1_main.c:94-99 | A zeroed buffer of `n` bytes with `s` stored at its start has length `n`, holds `s` first and NUL after it. |
| Bytes.Clear | serve.c:47 | `memset(buf, 0, ...)` leaves every byte of the buffer 0. |
| Bytes.CString | serve.c:86-89 | The C string of a buffer is a NUL-free prefix of it, ended by the buffer's end or by a NUL. |
| Bytes.CStringStops | serve.c:86-89 | The C string ends at the first NUL of the buffer at the latest. |
| Bytes.CStringUnique | serve.c:89 | The C string is the only NUL-free prefix that the end of the buffer or a NUL follows. |
| Bytes.CStringCut | serve.c:86 | Writing a NUL into a buffer cuts its C string there, whatever follows. |
| Bytes.ContainsByte | recvfile.c:29 | `strstr(name, "/") != NULL` holds exactly when '/' occurs in the name. |
| Bytes.EncodeBE | serve.c:132-133 | `htonl` followed by a write of the word gives four bytes. |
| Bytes.DecodeEncode | client1/client1_main.c:124-125 | `ntohl` of the four bytes the server produced with `htonl` gives back the original size or timestamp. |
| Bytes.EncodeDecode | serve.c:157-165 | Every four wire bytes encode the word they decode to, so the codec is a bijection. |
| SockWrap.Reread | sockwrap.c:91-103 | `Read` never reports an interrupted call. End-of-stream means no bytes remain. A count is at most the size asked for. |
| SockWrap.RereadPayload | sockwrap.c:91-103 | The bytes `Read` returns are the next bytes of the stream, and the stream left holds the rest. |
| SockWrap.ReadRetrying | sockwrap.c:91-103 | The method returns the count of the first read that is not interrupted. The buffer holds those bytes in front, with its old contents after them. |
| SockWrap.ReadnLoop | sockwrap.c:176-192 | From any point of the loop, the bytes stored grow by at most `nleft`. Fewer than that only at end-of-stream. A failure is never EINTR. |
| SockWrap.ReadnSpec | sockwrap.c:168-195 | `readn` stores at most `n` bytes. It stores fewer only when the stream has ended. It fails only on an error other than EINTR. |
| SockWrap.ReadnLoopInOrder | sockwrap.c:176-192 | The loop appends the next bytes of the stream, in order: nothing is lost, duplicated or reordered. |
| SockWrap.ReadnInOrder | sockwrap.c:168-195 | The buffer's first `k` bytes are the next `k` bytes of the stream, and the stream left holds the rest. |
| SockWrap.ReadnLoopCountsAll | sockwrap.c:176-192 | With no error other than EINTR, the loop ends normally, having added `min(nleft, bytes left)` bytes. |
| SockWrap.ReadnCountsAll | sockwrap.c:168-195 | With no error other than EINTR, `readn` returns `n`, or everything left when the stream ends first. |
| SockWrap.ReadnRetriesInterrupt | sockwrap.c:178-184 | An interrupted read is retried without storing or counting anything. |
| SockWrap.Readn | sockwrap.c:168-195 | The method returns `n - nleft` or -1 with the error seen. It leaves the stream's rest, and stores the bytes read at the front of the buffer. |
| SockWrap.Verdict | sockwrap.c:198-213 | `Readn` passes every non-negative count through. It ends the process on -1, with the timeout message exactly when errno is EWOULDBLOCK. |
| SockWrap.CheckedReadn | sockwrap.c:198-213 | The `Readn` method's verdict, stream and buffer are those of `readn` on the same stream. |
| SockWrap.WritenLoop | sockwrap.c:323-337 | A failure leaves a proper prefix of the data with the peer, at least what was accepted already. The error is never EINTR. |
| SockWrap.WritenSpec | sockwrap.c:315-339 | `writen` delivers all the data, or fails with an error other than EINTR having sent a proper prefix of it. |
| SockWrap.WritenLoopDelivers | sockwrap.c:323-337 | When no write is refused with a real error, the loop delivers everything. |
| SockWrap.WritenDelivers | sockwrap.c:315-339 | When no write is refused with a real error, `writen` delivers every byte. |
| SockWrap.Writen | sockwrap.c:315-339 | The method returns exactly `n` after all bytes went out in order, or -1. It never returns a partial count. The peer gets the data or the prefix sent. |
| SockWrap.LoggedWriten | sockwrap.c:341-345 | `Writen` only logs a failed write, exactly when `writen` did not deliver, and returns normally. |
| SockWrap.Sendn | sockwrap.c:347-371 | `sendn` has the contract of `writen`, over `send`. |
| SockWrap.CheckedSendn | sockwrap.c:373-377 | `Sendn` ends the process exactly when `sendn` did not deliver. |
| SockWrap.LineLoop | sockwrap.c:284-300 | The loop stores at most `maxlen - 1` bytes in all. |
| SockWrap.Line | sockwrap.c:278-304 | A line read stores at most `maxlen - 1` bytes. |
| SockWrap.DepositShape | sockwrap.c:302 | A line read changes the caller's buffer only where it stored bytes. It also writes the terminating NUL there exactly when it returns a positive count. |
| SockWrap.LineLoopInOrder | sockwrap.c:284-300 | The bytes stored are the next bytes of the stream, in order. |
| SockWrap.LineLoopUses | sockwrap.c:284-300 | The loop uses up one unit of the stream per byte stored, and one more when a read fails. |
| SockWrap.LineLoopAppends | sockwrap.c:284-300 | The loop only appends, and a '\n' can only be the last byte it stores. |
| SockWrap.LineLoopCode | sockwrap.c:284-303 | The loop returns -1 or a count. The count equals the bytes stored after a '\n', and is one more on a full buffer or end-of-stream after data. It returns 0 exactly at end-of-stream before any byte. |
| SockWrap.LineContract | sockwrap.c:278-304 | At most `maxlen - 1` bytes are stored, and they are the next bytes of the stream. The call returns -1 exactly on a failed read, and 0 exactly at end-of-stream before any byte. A stored '\n' ends the line and the count equals the bytes stored. Otherwise the count is one more, and the buffer is full or the stream ended. |
| SockWrap.ReadnFeed | sockwrap.c:168-195 | Bytes that arrived together are read by one `readn`. It takes exactly the count asked for and leaves the rest queued. |
| SockWrap.LineLoopFeed | sockwrap.c:284-300 | A line whose '\n' has arrived is read whole. Reading stops right after the '\n'. |
| SockWrap.LinesInOrder | sockwrap.c:241-267 | Successive line reads take the stream's bytes in order. |
| SockWrap.LineLoopAtomize | sockwrap.c:284-300 | A line read does the same whether the stream's bytes arrive together or one at a time. |
| SockWrap.StoreLine | sockwrap.c:302 | The buffer holds the line's bytes, plus the NUL after them when the count is positive. |
| SockWrap.ReadlineUnbuffered | sockwrap.c:278-304 | The method's count, stream left and buffer are those of `Line` on one-byte `recv`s, an interrupted `recv` being an error. |
| SockWrap.DropIntr | sockwrap.c:224-228 | Retrying interrupted reads removes every EINTR and nothing else. |
| SockWrap.DropIntrRead | sockwrap.c:224-228 | One read takes the first bytes, or the error, of the stream seen with interrupts skipped. An interrupted read takes nothing. |
| SockWrap.Fill | sockwrap.c:222-234 | The refill of `my_read` never reports EINTR and returns at most MAXLINE = 1024 bytes. Those bytes are the front of the stream seen with interrupts skipped. |
| SockWrap.BufferedAgrees | sockwrap.c:216-267 | With no interrupted read, the buffered `readline` returns and stores what `readline_unbuffered` does. |
| SockWrap.LineReader.constructor | sockwrap.c:218-220 | `read_cnt = 0`: nothing is held back. |
| SockWrap.LineReader.Take | sockwrap.c:235-237 | `read_cnt--; *ptr = *read_ptr++` hands out the first held byte. |
| SockWrap.LineReader.Refill | sockwrap.c:222-234 | Returns 1 with bytes now held, 0 at end-of-stream, or -1 on an error. The reader's view of the stream is kept, or loses its head on an error. |
| SockWrap.LineReader.MyRead | sockwrap.c:216-238 | `my_read` hands out the first byte of the reader's view (held bytes, then the socket's). Otherwise it returns 0 on an empty view or -1 on an error at its head. |
| SockWrap.LineReader.CollectLine | sockwrap.c:247-264 | The loop of `readline` returns the count and bytes of `Line` on the reader's view. The view afterwards is what `Line` leaves, so later calls go on in stream order. |
| SockWrap.LineReader.Readline | sockwrap.c:241-267 | `readline` returns `Line`'s count on the view. It stores the line and its NUL as `readline_unbuffered` does, keeping the fetched bytes it did not use. |
| Serve.FileSize | serve.c:257-264 | `get_file_size` gives `st_size` in 32 bits, or 2^32 - 1 for a missing file. It is never negative, so the `< 0` test at serve.c:115 cannot hold. |
| Serve.FileTimestamp | serve.c:267-274 | `get_file_timestamp` gives `st_mtime` in 32 bits, or 2^32 - 1 for a missing file. |
| Serve.Refuse | serve.c:75-78 | Refusing writes at most "-ERR\r\n", leaves the loop with the reason, and reads nothing. |
| Serve.RefuseDelivers | serve.c:75-78 | On a connection that refuses no write, exactly "-ERR\r\n" goes out. |
| Serve.RequestedName | serve.c:86-89 | The name of an accepted line holds no NUL and is at most the line less its "\r\n". |
| Serve.FileStep | serve.c:102-202 | The file part reads nothing more and ends only with a refusal, a broken reply or a short send. Its output fits the way it ended. |
| Serve.Reply | serve.c:149-192 | The reply begins with "+OK\r\n" whenever the loop goes on or a short `sendfile` ends it. It ends only on a failed header write or a short send. |
| Serve.GetStep | serve.c:58-213 | The GET branch never grows the stream and never ends on a failed read or QUIT. Its output fits its outcome: a refusal writes at most "-ERR\r\n", an access outside `buf` or `filename` writes nothing. `Serve.GetLineJudged` gives each outcome. |
| Serve.QuitStep | serve.c:214-237 | The QUIT branch always ends the loop: on a failed read or on QUIT, writing nothing, or else with the BadQuit refusal. |
| Serve.Step | serve.c:44-248 | A pass that goes on used up part of the stream (so the loop terminates). Its output fits its outcome: a failed read, QUIT or an access outside an array writes nothing, and a refusal writes at most "-ERR\r\n". |
| Serve.DepositAccepts | serve.c:82-86 | The CRLF test on the buffer a line read left holds exactly when the bytes stored end in "\r\n" and the count is theirs. The name is then the C string before the "\r\n". |
| Serve.CrlfAccepts | serve.c:67-86 | A GET line is accepted exactly when it ends in "\r\n" with a count equal to its length. An overlong line (count one more) or one without CRLF is refused. |
| Serve.NameLine | serve.c:69-89 | A "name\r\n" line that has arrived whole is read whole, accepted, and carries exactly `name`. |
| Serve.GetLineAccepted | serve.c:69-102 | After "GET ", a well-formed "name\r\n" whose name fits `filename` reaches the file part with that name and the stream after the line. |
| Serve.ReplyDelivers | serve.c:149-184 | On a connection that takes every byte and a `sendfile` that moves the whole file, the output is "+OK\r\n", the size word, the time word and the file, and the loop goes on. |
| Serve.GetServed | serve.c:54-184 | "GET name\r\n", with a name that fits `filename`, for a readable file is answered with "+OK\r\n", the big-endian size and mtime, and the file's bytes. The loop returns to reading the next request. |
| Serve.GetLineJudged | serve.c:69-213 | Each outcome of the GET line. A failed read is refused (LineFailed). A count below 2 reads before `buf` (Undefined). A count of 2 or more on a line not ending in "\r\n", including an overlong one, is refused (NoCrlf). With a connection that refuses no write, both refusals send exactly "-ERR\r\n". An accepted name goes to the file part when it fits `filename`, and is undefined otherwise. |
| Serve.IllegalCommandRefused | serve.c:239-247 | Four bytes read at once that are neither "GET " nor "QUIT" are refused as an illegal command. With a connection that refuses no write, exactly "-ERR\r\n" goes out. |
| Serve.QuitEnds | serve.c:214-228 | "QUIT\r\n" ends the loop with no reply. |
| Serve.BadQuitRefused | serve.c:229-237 | "QUIT" followed by two other bytes gets "-ERR\r\n". |
| Serve.ShortReadRefused | serve.c:277-293 | The first read is a single `read`. Fewer than four bytes, or end-of-stream, leave zeroed bytes in `buf` and take the illegal-command refusal. |
| Serve.UnservableRefused | serve.c:112-202 | A file `access` rejects, or that `fopen` cannot open, gets exactly "-ERR\r\n" and the loop ends. |
| Serve.SendfileFailureGoesOn | serve.c:173-192 | `sendfile`'s -1 becomes 2^32 - 1 in `bytesent` and never takes the short-send branch. The loop goes on with only the header sent. |
| Serve.ShortSendEnds | serve.c:185-192 | A `sendfile` count below the size ends the session. The bytes it moved are the last output. |
| Serve.TraversalRefused | serve.c:102-109 | A name holding "../" is refused before `access`, `stat` or `fopen` is consulted. |
| Serve.ServeLoopAppends | serve.c:44-248 | The loop only appends to the output. A session's output is what came before followed by its own. |
| Serve.CrlfCheckAsWritten | serve.c:82 | The test as written reads `buf[len - 2]` and `buf[len - 1]`, which lie inside `buf` exactly when `2 <= len`. |
| Serve.CrlfCheckAgrees | serve.c:82 | Where the test as written stays inside `buf`, it agrees with the corrected test. |
| Serve.CrlfCheckUnderflows | serve.c:69-82 | "GET \n" gives a count of 1, and "GET " then end-of-stream a count of 0. The test as written then reads before `buf`, and the GET branch ends undefined. |
| Serve.StrcpyAsWritten | serve.c:89 | `strcpy` into `filename[30]` fits exactly for names shorter than 30 bytes. |
| Serve.StrcpyOverflows | serve.c:25-89 | A 30-byte name passes every check before the copy and does not fit `filename`, so the GET branch ends undefined. |
| Serve.NameFits | serve.c:86-89 | Any accepted name, with its NUL, fits a 64-byte buffer such as `buf`. |
| Serve.ReadnTimeo | serve.c:277-293 | `Readn_timeo` makes one `read` and returns its result unchanged. It logs the timeout message exactly on EWOULDBLOCK. |
| Serve.ReplyErr | serve.c:75-78 | The method writes what `Refuse` writes and ends with that refusal. |
| Serve.ServeFile | serve.c:102-202 | The method's output, connection and outcome are those of `FileStep`. |
| Serve.SendReply | serve.c:149-192 | The method's output, connection and outcome are those of `Reply`. |
| Serve.ServeGet | serve.c:58-213 | The method's output, connection and outcome are those of `GetStep`, including its `Undefined` endings. |
| Serve.ServeQuit | serve.c:214-238 | The method's output, connection and outcome are those of `QuitStep`. |
| Serve.ServeOnce | serve.c:46-247 | One pass of the loop on the socket does what `Step` says. |
| Serve.ServeRequests | serve.c:44-248 | The loop on the socket writes `ServeSpec`'s output, ends as it says and leaves its connection state. |
| Serve.ServeConnection | serve.c:21-254 | `serve` does what `ServeSpec` says and closes `connfd` exactly once on every exit. |
| RecvFile.Basename | recvfile.c:29-33 | The local name is the suffix after the last '/' of the requested name, or the whole name when it has none. |
| RecvFile.BasenameOfPath | recvfile.c:29-33 | A file's name under any directory part is the file's own name. |
| RecvFile.Disk.Create | recvfile.c:39-41 | `fopen(name, "w")` succeeds exactly for a creatable name, and then leaves the file empty. |
| RecvFile.Disk.Append | recvfile.c:49 | `fwrite` appends the chunk to the file and changes nothing else. |
| RecvFile.Disk.Remove | recvfile.c:96 | `remove` returns 0 exactly when the file was there, and the file is gone afterwards. |
| RecvFile.CountOffWraps | recvfile.c:52 | `remain_data -= len` subtracts modulo 2^32. |
| RecvFile.RecvLoop | recvfile.c:47-76 | The loop only appends to the file and keeps `buf` at its size. |
| RecvFile.RecvLoopInOrder | recvfile.c:47-52 | The file receives the stream's bytes in arrival order. |
| RecvFile.RecvLoopCounts | recvfile.c:47-52 | `remain_data` is always the starting value less the bytes appended, modulo 2^32. |
| RecvFile.RecvLoopStops | recvfile.c:62-76 | The loop stops by itself exactly when `remain_data` reaches 0 after a chunk. Otherwise it runs until `Read` reports end-of-stream or fails. |
| RecvFile.RecvLoopExact | recvfile.c:24-52 | While no chunk overshoots, bytes appended plus `remain_data` equal `dim`. |
| RecvFile.RecvReturnsCount | recvfile.c:81 | `recvfile` returns the number of bytes received, modulo 2^32. |
| RecvFile.RecvLoopReceivesAll | recvfile.c:47-76 | When exactly `remain_data` bytes of a non-empty file arrive with no error, the loop takes them all and stops at 0. |
| RecvFile.RecvLoopFeed | recvfile.c:47-76 | A non-empty file's bytes that arrived whole, whatever follows them, are received exactly. The loop stops right after them. |
| RecvFile.Download | recvfile.c:47-81 | A returned count lies in `uint32_t`. |
| RecvFile.RecvSpec | recvfile.c:20-82 | `recvfile` returns a count in `uint32_t`, or the process ends. |
| RecvFile.RecvfileSpec | recvfile.c:88-104 | `Recvfile` returns only counts of at least `dim`. |
| RecvFile.RecvfileComplete | recvfile.c:88-104 | A complete transfer of a non-empty file returns `dim`, and the basename's file holds exactly the bytes sent. |
| RecvFile.RecvfileFeed | recvfile.c:88-104 | A non-empty file sent in full is stored under its basename and its size returned. What follows it on the connection stays unread. |
| RecvFile.ShortTransferKeepsFile | recvfile.c:94-100 | After a short transfer of a name with a '/', the partial file written under the basename stays, because `remove` gets the unstripped name. |
| RecvFile.ShortTransferRemovesFile | recvfile.c:94-100 | After a short transfer of a name without '/', the partial file is removed and the "deleted" ending is taken. |
| RecvFile.EmptyFileReadsOn | recvfile.c:47-62 | For `dim` 0, the loop never stops at 0 before 4 GiB have arrived. Without the printout's division by `dim`, which ends the C process at the first chunk, it ends only with the stream or an error. |
| RecvFile.Recv | recvfile.c:20-82 | The method's files, result, `buf` and stream left are those of `RecvSpec`. |
| RecvFile.Recvfile | recvfile.c:88-104 | The method's files, result, `buf` and stream left are those of `RecvfileSpec`. |
| RecvFile.RecvChunks | recvfile.c:47-81 | The loop appends to the open file what `RecvLoop` appends. It returns `dim - remain_data` in 32 bits, or the read failure. |
| Client.HostImage | client1/client1_main.c:124-125 | A `uint32_t` variable holds four bytes. |
| Client.Request | client1/client1_main.c:94-102 | Building and sending the request keeps the machine's shape. `ClientRuns.RequestDelivers` proves it sends exactly "GET name\r\n" and changes nothing else. |
| Client.Words | client1/client1_main.c:119-121 | Reading the two words touches only the stream, `dimension` and `timestamp`. It stops only for a failed `Readn`. |
| Client.Store | client1/client1_main.c:124-128 | `ntohl` and `Recvfile` send nothing and close nothing. They stop only inside `Recvfile`. |
| Client.Fetch | client1/client1_main.c:119-128 | After "+OK\r\n" the client sends nothing and closes nothing. It stops only for a failed `Readn` or inside `Recvfile`. |
| Client.ErrTail | client1/client1_main.c:137-146 | After "-ERR\r" the sixth byte leaves the files alone. It stops only for a failed `Readn` or the server error. |
| Client.Answer | client1/client1_main.c:111-156 | Handling the reply head writes nothing. `ClientRuns.AnswerOk`, `ClientRuns.RoundServerError`, `ClientRuns.RoundErrHeadSkipped` and `ClientRuns.RoundInvalidHead` prove what each head leads to. |
| Client.Round | client1/client1_main.c:90-157 | One round keeps the machine's shape. `ClientRuns.RoundFetches`, `ClientRuns.RoundServerError`, `ClientRuns.RoundWithoutReply` and `ClientRuns.RoundCloses` prove what a round does. |
| Client.Finish | client1/client1_main.c:160-169 | The quit keeps the machine's shape. `ClientRuns.ClientLoopFetchesAll` proves it sends "QUIT\r\n" once and closes once. |
| Client.ClientLoopClearsBuf | client1/client1_main.c:94 | What `buf` held at the start does not affect the run, since it is cleared before use. |
| Client.SendRequest | client1/client1_main.c:94-102 | The bytes written for a name are what `writen` delivers of exactly "GET " + name + "\r\n". |
| Client.ReadWords | client1/client1_main.c:119-121 | The method does what `Words` says on the client's objects. |
| Client.StoreFile | client1/client1_main.c:124-128 | The method does what `Store` says on the client's objects. |
| Client.FetchFile | client1/client1_main.c:119-128 | The method does what `Fetch` says on the client's objects. |
| Client.ReadErrTail | client1/client1_main.c:137-146 | The method does what `ErrTail` says on the client's objects. |
| Client.ReadAnswer | client1/client1_main.c:111-156 | The method does what `Answer` says on the client's objects. |
| Client.RequestFile | client1/client1_main.c:90-157 | The method does what `Round` says on the client's objects. |
| Client.SendQuit | client1/client1_main.c:160-172 | "QUIT\r\n" is written with `writen` from a cleared `buf`, and the socket is closed once. |
| Client.RequestAll | client1/client1_main.c:90-172 | The loop over the names, then the quit, does what `ClientLoop` says. |
| Client.RunClient | client1/client1_main.c:87-172 | `main` from line 87 on does what `ClientLoop` says from a zeroed `buf`. |
| ClientRuns.RequestDelivers | client1/client1_main.c:94-102 | Over a connection that takes every write, exactly "GET " + name + "\r\n" goes out. |
| ClientRuns.AnswerOk | client1/client1_main.c:111-114 | The head "+OK\r\n" leads to reading the two words and the file. |
| ClientRuns.WordsFeed | client1/client1_main.c:119-121 | Two words that have arrived are read into `dimension` and `timestamp` as they are. |
| ClientRuns.StoreFeed | client1/client1_main.c:124-128 | A size word encoding the length of the non-empty bytes that follow makes `Recvfile` store exactly those bytes. |
| ClientRuns.RoundFetches | client1/client1_main.c:90-129 | A whole reply for a non-empty file stores the file under the basename with exactly the bytes sent. The loop goes on and leaves what follows unread. |
| ClientRuns.RoundServerError | client1/client1_main.c:131-146 | "-ERR\r\n" closes the socket and ends the run without storing anything or requesting further files. |
| ClientRuns.RoundErrHeadSkipped | client1/client1_main.c:137-147 | "-ERR\r" followed by any byte but '\n' is ignored, and the loop moves on to the next name. |
| ClientRuns.RoundInvalidHead | client1/client1_main.c:148-156 | Any other five-byte head closes the socket and ends the run as an invalid response. |
| ClientRuns.RoundWithoutReply | client1/client1_main.c:111-156 | When the server closes without replying, the unchecked `Readn` leaves "GET " in `buf`, and the run ends as an invalid response. |
| ClientRuns.RoundCloses | client1/client1_main.c:131-156 | A round closes the socket once when it ends with `Close(s)`, and not otherwise. |
| ClientRuns.ClientLoopCloses | client1/client1_main.c:90-172 | The socket is closed exactly once when the run ends normally, on the error reply or on an invalid head. A failed `Readn` or `Recvfile` never closes it. |
| ClientRuns.ClientLoopFetchesAll | client1/client1_main.c:90-172 | When every file is served and none is empty, all requests go out in argument order, then "QUIT\r\n" once. Every file is stored under its basename, the socket is closed once, and the run ends normally. |
| Session.ServedFileStored | client1/client1_main.c:90-129 | The reply `serve` writes for "GET name\r\n", with a name that fits the server's `filename` and a non-empty file, makes the client store exactly the server's file under the basename and go on. |

## Left out

- The accept loops, `fork`, signal handling and socket options of server1/server1_main.c and server2/server2_main.c are not part of this model. Neither are `tcp_connect` and the argument checks of client1/client1_main.c (lines 43-85), nor the thin system-call wrappers of sockwrap.c.
- `Readline` and `Readline_unbuffered` (sockwrap.c:269-276, 306-313) only end the process on -1. `serve` calls `readline_unbuffered` directly, so they are not modelled.
- Clocks, `gettimeofday` and the progress and speed printout of recvfile.c:55-60 are left out, along with all message text of `printf` and the `err_*` helpers. The model keeps only which kind of ending was taken. For `dim` 0, the printout's integer division by `dim` ends the C process at the first chunk that arrives.
- A receive timeout (`SO_RCVTIMEO`) is a read that fails with EWOULDBLOCK. No time passes in the model.
- sockwrap.h and errlib.h are not part of this model. `INTERRUPTED_BY_SIGNAL` is taken to mean `errno == EINTR`. `err_sys` and `err_quit` are taken to end the process.
- The kernel's `stat`, `access`, `fopen` and `sendfile` are lookups in an abstract file table and a script of `sendfile` results. `fopen` failures on the client are a set of names that cannot be created. `fwrite` buffering and the missing `fclose` on the paths that end without completion are not modelled.
- The IPv4-mapped host rewrite at serve.c:32-37 is not modelled: it only feeds log lines.
- SockWrap.Sendn and SockWrap.CheckedSendn: the `flags` argument of `send` is not modelled.
- SockWrap.WritenSpec: a `write` that returns 0 is not modelled. `write` returns 0 only for a zero count, which the loop never asks for.
- Client.Request: requires that "GET name\r\n" with its NUL fits the 2048-byte `buf`, and that the name holds no NUL. A longer command-line argument would overflow `buf`.
- Client.HostImage: the client's host is taken to be little-endian. Only the bytes of `dimension` and `timestamp` after the client's in-place `ntohl` depend on this.
- Client.RunClient: the uninitialised contents of `dimension`, `timestamp` and `c` are parameters. `buf` is cleared before use, as `Client.ClientLoopClearsBuf` shows.
- RecvFile.EmptyFileReadsOn: the loop is stated without the printout. For `dim` 0, the C process ends at the first chunk, by the division by `dim` at recvfile.c:59. The model instead reads on.
- Serve.Step, Serve.GetStep and Serve.ServeGet: after an access outside `buf` or `filename`, the C program's behaviour is undefined. The model ends the pass with `Undefined` and no output; it does not model what the process does next.
- RecvFile.RecvLoopReceivesAll, RecvFile.RecvLoopFeed, RecvFile.RecvfileComplete, RecvFile.RecvfileFeed, ClientRuns.StoreFeed, ClientRuns.RoundFetches, ClientRuns.ClientLoopFetchesAll and Session.ServedFileStored cover non-empty files only. For `dim` 0 the C client ends at the division by `dim` at recvfile.c:59 once a chunk arrives, which the model leaves out (see `RecvFile.EmptyFileReadsOn`).
- Concurrency across connections is not modelled. Each `serve` call owns its connection, so the model handles one connection at a time.

## Findings

| source | as written | input that shows it | evidently intended | confidence | as-written member | corrected member |
|---|---|---|---|---|---|---|
| serve.c:82 | `buf[filenamelenght - 2]` and `buf[filenamelenght - 1]` are read whatever count `readline_unbuffered` returned | "GET \n" (count 1) or "GET " followed by end-of-stream (count 0): the test reads before the start of `buf` | a line shorter than two bytes has no "\r\n" and is refused | not executed | Serve.CrlfCheckAsWritten, Serve.CrlfCheckUnderflows | Serve.EndsWithCrlf, Serve.CrlfAccepts |
| serve.c:89 | `strcpy(filename, buf)` copies a name of up to 61 bytes into `char filename[30]` | "GET " followed by 30 bytes 'a' and "\r\n" passes every earlier check and writes 31 bytes into `filename` | the name is kept in storage as large as the line buffer | not executed | Serve.StrcpyAsWritten, Serve.StrcpyOverflows | Serve.RequestedName, Serve.NameFits |
