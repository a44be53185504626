# Verified model of the file-transfer engine

This project models the transfer engine of a small file-transfer tool written in Go. A client `put`s a file to a server or `get`s one back over one connection.

- **Storing.** The server exclusively creates the file and answers "Ready for data". It reads exactly the announced number of raw payload bytes, then reads the client's trailing checksum. If the checksum matches the digest of what arrived, it replies "File stored successfully". If it does not match, it removes the file and replies "Checksum mismatch".
- **Retrieving.** The server stats and opens the file, answers "Ready to send" with the size, streams the content, then sends the content's digest.
- **Dispatch loop.** One loop per connection runs these exchanges until a receive fails or an empty envelope arrives.
- **Second variant.** A second server variant stores under the last '/'-separated component of the requested name.
- **Client.** The client's `put` and `get` are the mirror images of these exchanges.

The model has three parts:

- **State.** `FileSystem.Disk` holds the namespace, a map from path to bytes plus the paths the OS refuses. `Messages.MessageHandler` holds one endpoint of a connection:
  - what is still to be read, as a sequence of raw bytes and framed envelopes;
  - a trace of every item read and sent, in order.
- **Reference definitions.** `Exchange` defines the server's store, retrieve, dispatch turn and whole connection as functions from one endpoint state (`Conn`) to the next. `ClientSaloni.Put` and `ClientSaloni.Get` do the same for the client.
- **Handlers.** The Go functions are methods that change the disk and the handler step by step. Each method is proved to end in exactly the state its reference definition gives. `ServerFacts`, `ClientFacts` and `RoundTrip` prove properties of the reference definitions.

Parameters and abstractions:

- MD5 is a parameter `digest`. Checksum verification is byte-sequence equality.
- Numeric conversions are written out:
  - `uint64` is a newtype;
  - `int64(size)` in `io.CopyN` is `CopyCount`. A size of 2^63 or more turns negative, so nothing is copied and no error is reported.
- Reading the checksum field of an envelope that is not a checksum dereferences nil in Go. Both the server's store handler and the client's `get` do this. The model records it as the outcome `Panicked`: the server's loop stops there, and no file is cleaned up.

The protocol's design says that every failed transfer deletes its partial file. The code does not always do so:

- the client's `get` leaves the empty file behind when the server rejects the request (client/client_saloni.go:59-62);
- `get` leaves the partial file after a short read (client/client_saloni.go:66-68);
- a store handler that panics leaves its file.

The model follows the code and proves where files are left (`ClientFacts.GetFileEffect`, `ServerFacts.StoreFileEffect`).

## Model

| member | source | states |
|---|---|---|
| FileSystem.Disk.OpenExclusive | server/server_saloni.go:18-22 | exclusive create: fails with the reason, leaving the namespace unchanged, when the name is empty, already exists or is refused; otherwise adds an empty file |
| FileSystem.Disk.Stat | server/server_saloni.go:54-58 | stat gives the file's size, or NotFound for an absent name |
| FileSystem.Disk.Open | server/server_saloni.go:60-64 | open for reading gives the content, or NotFound / PermissionDenied |
| FileSystem.Disk.Remove | server/server_saloni.go:29 | os.Remove takes the name out of the namespace and changes nothing else |
| FileSystem.Disk.Write | server/server_saloni.go:28 | one byte written through the open file is appended to that file only |
| Messages.ReadRaw | server/server_saloni.go:28-31 | io.CopyN from the connection: reads at most n raw bytes; the stream is exactly those bytes followed by what is left; the read is complete iff n bytes arrived, and otherwise the stream ended or a non-raw item came next |
| Messages.ReadRawExact | server/server_saloni.go:28 | reading n bytes from a stream that holds exactly n payload bytes (or fewer, then a non-byte or the end) yields exactly those bytes and leaves the rest |
| Messages.CopyCount | server/server_saloni.go:28 | int64(request.Size): sizes that fit an int64 are copied exactly; larger sizes copy nothing; never more than the int64 maximum |
| Messages.MessageHandler.Receive | server/server_saloni.go:85-94 | one receive reads one item: a frame yields its envelope; the end of the stream or an undecodable item is an error; the item read is appended to the trace |
| Messages.MessageHandler.ReceiveResponse | client/client_saloni.go:24 | the answer is ok only for a Response frame whose ok flag is set; one item is read |
| Messages.MessageHandler.ReceiveRetrievalResponse | client/client_saloni.go:59 | the answer is ok only for a RetrievalResponse frame whose ok flag is set, and then carries its size; one item is read |
| Messages.MessageHandler.Send | server/server_saloni.go:20 | sending an envelope appends exactly its frame to the trace and reads nothing |
| Messages.MessageHandler.SendResponse | server/server_saloni.go:20-46 | SendResponse(ok, message) sends exactly one Response frame with that flag and text (the calls at lines 20, 25, 42 and 46) |
| Messages.MessageHandler.SendRetrievalResponse | server/server_saloni.go:56-67 | SendRetrievalResponse(ok, message, size) sends exactly one RetrievalResponse frame with those fields (the calls at lines 56, 62 and 67) |
| Messages.MessageHandler.SendChecksumVerification | server/server_saloni.go:74 | sends exactly one Checksum frame carrying the digest (also client/client_saloni.go:40) |
| Messages.MessageHandler.SendStorageRequest | client/client_saloni.go:23 | sends exactly one StorageRequest frame with the name and size |
| Messages.MessageHandler.SendRetrievalRequest | client/client_saloni.go:58 | sends exactly one RetrievalRequest frame with the name |
| Messages.CopyToFile | server/server_saloni.go:28-31 | the copy loop appends to the file exactly the bytes ReadRaw delivers, consumes exactly those from the stream, records them as read, and reports whether all n arrived |
| Messages.StreamOut | server/server_saloni.go:69-72 | io.Copy to the connection sends exactly the content's bytes, in order, and reads nothing |
| Names.Split | server/saloni_server.go:18 | strings.Split on '/': at least one piece, no piece contains '/', joining the pieces with '/' gives back the name, and there is one piece iff the name has no '/' |
| Names.Basename | server/saloni_server.go:18-19 | the last piece of the name split on '/', which contains no '/' |
| Names.BasenameIsLastComponent | server/saloni_server.go:17-19 | the stored name is a suffix of the requested name, contains no '/', and starts at the beginning of the name or right after a '/' |
| Names.BasenameOfPlainName | server/saloni_server.go:17-19 | a name without '/' is stored under that name |
| Names.BasenameIdempotent | server/saloni_server.go:17-19 | stripping a stripped name changes nothing |
| Exchange.Store | server/server_saloni.go:15-49 | a store keeps the namespace valid (no empty name, every size fits an int64), never changes the refused names, and never reads more than the stream holds |
| Exchange.StorePayload | server/server_saloni.go:27-31 | the payload part of a store keeps the namespace valid and only consumes the stream |
| Exchange.StoreVerdict | server/server_saloni.go:33-46 | the checksum part of a store keeps the namespace valid and reads exactly what one receive takes: the stream left is the receive's rest, at most one item shorter |
| Exchange.Retrieve | server/server_saloni.go:51-77 | a retrieval changes neither the namespace nor the inbound stream |
| Exchange.Serve | server/server_saloni.go:84-111 | turns of the loop until one stops it: the final namespace is valid with the same refused names, and the stream only shrinks |
| Exchange.Step | server/server_saloni.go:84-111 | a turn of the loop that continues leaves a valid namespace and strictly shortens the inbound stream, so the loop ends on every finite stream |
| ServerSaloni.HandleStorage | server/server_saloni.go:15-49 | the handler leaves the disk, the stream and the trace exactly as Exchange.Store says, with the same outcome |
| ServerSaloni.ReceivePayload | server/server_saloni.go:27-31 | copying the payload into the new empty file, and removing it after a short read, ends exactly as Exchange.StorePayload says |
| ServerSaloni.FinishStorage | server/server_saloni.go:33-48 | receiving the checksum, removing the file when it is missing or does not match, and replying, ends exactly as Exchange.StoreVerdict says |
| ServerSaloni.HandleRetrieval | server/server_saloni.go:51-77 | the handler sends exactly what Exchange.Retrieve says, reads nothing and leaves the disk alone |
| ServerSaloni.HandleClient | server/server_saloni.go:79-112 | the loop ends in exactly the state and for exactly the reason Exchange.Serve gives, storing under the requested names |
| SaloniServer.HandleStorage | server/saloni_server.go:16-54 | the handler stores under the basename of the requested name, ending exactly as Exchange.Store says for that name |
| SaloniServer.HandleRetrieval | server/saloni_server.go:56-82 | retrieval uses the requested name unchanged and ends exactly as Exchange.Retrieve says |
| SaloniServer.HandleClient | server/saloni_server.go:84-115 | the loop of the second variant ends exactly as Exchange.Serve says with basename stripping |
| ServerFacts.StoreFileEffect | server/server_saloni.go:18-46 | a store changes no file but the requested one; a name that exists or cannot be created is left alone; the new file survives only on success or a panic, and then holds exactly the payload bytes read; any other failure (short read, missing or mismatching checksum) removes it again |
| ServerFacts.StoreTrace | server/server_saloni.go:18-46 | a store only appends to the trace and consumes a prefix of the stream. Its replies are the rejection alone, "Ready for data" alone (short read, missing checksum, panic), Ready then "Checksum mismatch", or Ready then "File stored successfully". A failed create reads nothing. Otherwise sending Ready is its first act, before any payload byte is read |
| ServerFacts.AcceptedTrace | server/server_saloni.go:24-46 | once the create works, "Ready for data" is the first thing sent, before any payload byte is read; the replies are that one followed by the payload part's, and the stream is conserved |
| ServerFacts.PayloadTrace | server/server_saloni.go:27-46 | after Ready, the payload and checksum part sends only its final reply and consumes a prefix of the stream |
| ServerFacts.VerdictTrace | server/server_saloni.go:33-46 | the checksum part first records the one item it receives, then sends only the success or mismatch reply (or nothing), and conserves the stream |
| ServerFacts.StoreConsumes | server/server_saloni.go:18-33 | exactly what a store leaves of the stream, which the dispatch loop reads next: all of it on a failed create; otherwise what follows the int64(Size) raw bytes copied, less the one checksum item when the copy was complete |
| ServerFacts.StoreOutcome | server/server_saloni.go:18-46 | how a store ends, in terms of its inputs: OpenFailed iff the create fails; ShortRead iff fewer than the announced bytes arrive; then the item right after the payload decides it: missing or not a frame means ChecksumNotReceived, a non-checksum frame means Panicked, a checksum of another value means ChecksumMismatch, and the digest of the payload means Done |
| ServerFacts.RetrieveReplies | server/server_saloni.go:54-74 | a retrieval succeeds iff the file exists and may be opened. It then sends "Ready to send" with the content's length, exactly the content, then its digest. Otherwise it sends one rejection with size 0 and no payload. Either way it reads nothing and changes nothing |
| ServerFacts.StepStops | server/server_saloni.go:84-111 | a turn stops the loop iff the receive fails, the envelope is empty, or the store handler panics; failed stores, every retrieval and envelopes of other types continue it |
| ServerFacts.StepTrace | server/server_saloni.go:84-111 | a turn only appends to the trace and consumes a prefix of the stream |
| ServerFacts.StepFileEffect | server/server_saloni.go:96-104 | a turn changes no existing file and adds at most the file its store request names |
| ServerFacts.ServeKeepsExistingFiles | server/server_saloni.go:79-112 | over a whole connection, no file that existed at the start is changed or removed |
| ServerFacts.ServeTrace | server/server_saloni.go:79-112 | over a whole connection, the trace only grows and what was read followed by what is left is the original stream |
| ServerFacts.ServeStripsNames | server/saloni_server.go:17-19 | the second variant never creates a file whose name contains '/' |
| ServerFacts.StepVariantsAgree | server/saloni_server.go:99-113 | both variants take the same turn unless a store request names a directory |
| ServerFacts.ServeVariantsAgree | server/saloni_server.go:84-115 | both variants behave identically on a connection whose store requests name no directory |
| ClientSaloni.Put | client/client_saloni.go:15-47 | put never changes the local namespace and reads no more than the stream holds |
| ClientSaloni.Get | client/client_saloni.go:49-82 | get keeps the local namespace valid, never changes the refused names, and reads no more than the stream holds |
| ClientSaloni.GetPayload | client/client_saloni.go:64-68 | the payload part of get keeps the local namespace valid and only consumes the stream |
| ClientSaloni.GetVerdict | client/client_saloni.go:70-79 | the checksum part of get keeps the namespace valid and reads exactly what one receive takes: the stream left is the receive's rest, at most one item shorter |
| ClientSaloni.PutFile | client/client_saloni.go:15-47 | put sends and reads exactly what ClientSaloni.Put says and ends with the same outcome |
| ClientSaloni.GetFile | client/client_saloni.go:49-62 | get changes the disk, the stream and the trace exactly as ClientSaloni.Get says |
| ClientSaloni.DownloadPayload | client/client_saloni.go:64-79 | copying the payload, checking the server's digest, and removing the file only on a mismatch, ends exactly as ClientSaloni.GetPayload says |
| ClientFacts.PutTrace | client/client_saloni.go:18-43 | a failed stat sends and reads nothing. Otherwise put sends the storage request with the file's length. It sends the content followed by its digest exactly when the exchange ends Done or VerificationFailed, and otherwise nothing more; it only consumes a prefix of the stream |
| ClientFacts.PutOrder | client/client_saloni.go:23-36 | once the file exists, put's first two acts are sending the storage request and reading the server's answer, so content and digest can only follow that answer |
| ClientFacts.PutOutcome | client/client_saloni.go:18-43 | how put ends: StatFailed iff the file is absent; ServerRejected iff the first reply is not an ok Response; OpenFailed iff the open is refused after acceptance; VerificationFailed iff the second reply is not ok; Done iff both replies are ok Responses |
| ClientFacts.GetFileEffect | client/client_saloni.go:52-79 | a failed local create changes nothing and sends nothing. A rejection leaves the new empty file. A short read, a panic or success leaves the file holding exactly the bytes read. A checksum mismatch removes it |
| ClientFacts.GetTrace | client/client_saloni.go:52-70 | get sends exactly the retrieval request if the local create works, and nothing if it fails; it only appends to the trace and conserves the stream (what it leaves is exactly GetConsumes' remainder) |
| ClientFacts.GetConsumes | client/client_saloni.go:59-70 | exactly what get leaves of the stream: all of it on a failed create; what follows the answer when that is not an ok RetrievalResponse; otherwise what follows the announced raw bytes, less the one checksum item when they all arrived |
| ClientFacts.DownloadTrace | client/client_saloni.go:64-70 | the payload part of get sends nothing and consumes a prefix of the stream |
| ClientFacts.PayloadOutcome | client/client_saloni.go:64-79 | how the payload part of get ends: ShortRead iff fewer than the announced bytes arrive; otherwise the item after them decides: missing, not a frame or not a checksum means a panic, another checksum means ChecksumMismatch, the digest of exactly those bytes means Done; nothing else is possible |
| ClientFacts.GetOutcome | client/client_saloni.go:52-79 | how get ends, in terms of its inputs: OpenFailed iff the local create fails; ServerRejected iff it works but the first item is not an ok RetrievalResponse; then ShortRead, Panicked, ChecksumMismatch and Done each iff the condition on the payload and the item after it holds; no other outcome is possible |
| RoundTrip.StoreOfUpload | server/server_saloni.go:18-46 | a store whose stream carries the content and its digest, with its size announced, succeeds, stores exactly that content and reads exactly the upload |
| RoundTrip.GetOfDownload | client/client_saloni.go:52-79 | a get whose stream carries what a successful retrieval sends succeeds, leaves exactly the server's content locally and reads exactly the download |
| RoundTrip.UploadAgreement | client/client_saloni.go:15-47 | put against one server turn of either variant, each reading what the other sends: put succeeds and sends request, content and digest, and the server stores the client's exact content under the name its variant uses and replies exactly Ready then "File stored successfully" |
| RoundTrip.DownloadAgreement | client/client_saloni.go:49-82 | get against one server turn: get sends only its request, the server sends the content and its digest and changes nothing, and get succeeds with a local copy equal to the server's file |
| RoundTrip.StoreThenRetrieve | server/server_saloni.go:46-74 | after a successful store, retrieving the same name serves exactly the stored payload |
| RoundTrip.StoreTwiceRejected | server/server_saloni.go:18-22 | a second store of a stored name fails with AlreadyExists, reads nothing and leaves the stored file unchanged |
| RoundTrip.CorruptUploadDiscarded | server/server_saloni.go:39-44 | an upload whose checksum does not match the content leaves the server's namespace as it was, and draws Ready then "Checksum mismatch" |

## Left out

- `main` in the three files is not part of this model: argument parsing, `os.Chdir`, listening, accepting and dialing, and the goroutine started per connection. It is command-line and network plumbing.
- The messages package is not part of this model: the length-prefixed framing, the protobuf encoding and `MessageHandler` itself. A connection is an abstract sequence of items:
  - a framed envelope is one item;
  - raw payload bytes are items of their own;
  - an undecodable frame is an item of its own.
  On the real byte stream a frame arriving where payload is expected would be read as payload bytes. In the model the raw read stops at it instead.
- `Messages.MessageHandler.ReceiveResponse` and `Messages.MessageHandler.ReceiveRetrievalResponse` are not shown in the source. They are modelled as reading one item, which is acceptable only if it is a matching frame with its ok flag set.
- MD5 and `util.VerifyChecksum` are not part of this model. The digest is a function parameter, and verification is byte-sequence equality.
- Logging, console output, the text of OS errors and the error values the Go functions return are left out. An OS error is kept as its kind, and a returned error as the `Outcome` of the exchange.
- Failures of writing to the file, of sending on the connection (including `io.Copy` in `put` and in retrieval), of `os.Remove` and of `Close` are left out. The model assumes these calls succeed.
- The process-wide effect of a panic is left out. An unrecovered panic in a connection's goroutine ends the whole server process. The model only stops that connection's loop.
- Concurrency is left out: several connections sharing the file system, and a retrieval racing a store of the same name. The model covers one connection at a time.
- Directories, file permissions and the time between `os.Stat` and `os.Open` are reduced to a set of refused names. A file cannot change between the stat and the read.
- An inbound stream is finite (the peer closes the connection at its end). A peer that stalls forever is not modelled.
