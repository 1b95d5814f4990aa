# P2P file synchronizer, modelled in Dafny

`fileSynchronizer.py` is the peer side of a tracker-based peer-to-peer file
synchronizer. A peer does the following:

- It checks the tracker's IP address and port given on the command line.
- It picks a free port of its own, starting at 8000.
- It serves the files of its working directory to other peers on that port. Each file is sent as raw bytes in slices of 8192 bytes.
- Every few seconds it runs a sync round:
  - it sends the tracker a message, which is the registration `{port, files}` the first time and the liveness message `{port}` after that;
  - it reads back the tracker's directory, which maps each file name to `{mtime, ip, port}`;
  - it fetches every file that is missing locally, or whose tracker mtime is strictly newer than the local one;
  - it stamps each fetched file with the tracker's mtime.

The model is split into these modules:

- `Common`: `Option` and `byte`.
- `Strings`: `str.split` on one character, `join`, ASCII `isdigit`, `int` of a digit string, and the decimal rendering `str`.
- `Validation`: `validate_ip` and `validate_port`.
- `Ports`: `get_next_available_port`. The operating-system probe is a predicate parameter.
- `Chunking`: the two send loops that slice a payload into `BUFFER_SIZE` pieces, and the receive loop that appends reads until the first empty one.
- `Inventory`:
  - the working directory, as a map from name to `FileEntry(content, mtime)`;
  - the `get_file_info` filter;
  - the `local` name-to-mtime table of a round.
- `Reconcile`: the sync rule as functions on values:
  - which directory entries are fetched;
  - what one fetch does to the directory;
  - what the whole fetch pass does.
- `Synchronizer`: the peer object, as the class `FileSynchronizer` with these fields:
  - `port`;
  - `msg`, the next tracker message;
  - `fs`, the shared directory.

  Its methods model `process_message`, one fetch, the fetch loop and `sync`. Each method is proved against the specification functions of `Reconcile` and `Synchronizer.Round`. The module also models the message schedule of consecutive rounds.

Where the outside world acts, the model takes it as a parameter:

- the operating-system port probe is `available: int -> bool`;
- `json.dumps` is `encode: Message -> string`, and `json.loads` is `parse: string -> Option<Directory>`, where None is a decode error;
- the tracker exchange is a `TrackerReply`, which is either `Failed` (timeout or socket error) or `Reply(text)`;
- each peer's answer to a file request is a `PeerStream`, keyed by file name and peer address. It is `Refused` when the connect or the send fails. Otherwise it is the sequence of reads, plus whether the connection breaks after them;
- the `os.listdir` order is `names`, a listing of the directory;
- the clock is `now`, the mtime a file write leaves before `os.utime` runs.

## Model

| member | source | states |
|---|---|---|
| Strings.Split | fileSynchronizer.py:32 | The parts of `s` between separators. There is at least one part, none contains the separator, and joining them gives `s` back. There is more than one part exactly when the separator occurs. |
| Strings.SplitOfJoin | fileSynchronizer.py:32 | Splitting undoes joining when no part contains the separator. |
| Validation.ValidateIp | fileSynchronizer.py:24-41 | Accepts exactly the dotted quads: four '.'-separated parts, each a non-empty ASCII digit string of value at most 255. |
| Validation.ValidatePort | fileSynchronizer.py:44-56 | Accepts exactly the non-empty digit strings whose value is below 2^16, so an accepted port fits 16 bits. |
| Validation.DottedQuadOfParts | fileSynchronizer.py:32-40 | Four dot-free strings joined by '.' are accepted exactly when each is an octet. |
| Validation.DottedQuadOfNumbers | fileSynchronizer.py:24-41 | The rendering `a.b.c.d` of four naturals is accepted exactly when all four are at most 255. |
| Validation.ValidatePortOfNumber | fileSynchronizer.py:51-55 | A natural written with any number of leading zeros is accepted exactly when it is below 65536. |
| Ports.NextAvailablePort | fileSynchronizer.py:93-107 | When it returns a port P, P is the least available port in [initial, 65535]. It returns None exactly when no port in that range is available. |
| Chunking.Chunk | fileSynchronizer.py:171-173 | The slices concatenate to the payload. Each is non-empty and at most the buffer size, all but the last are exactly the buffer size, and there are ceil(len / size) of them. |
| Chunking.ChunkCount | fileSynchronizer.py:204-207 | Any such slicing has exactly ceil(len / size) pieces. |
| Chunking.FirstEmpty | fileSynchronizer.py:233-236 | The read-until-empty loop stops at the first empty read, or after all reads. |
| Chunking.ReceiveReads | fileSynchronizer.py:233-237 | However the stream's bytes are grouped into non-empty reads, appending every read until the empty read of a closed connection reproduces the stream's bytes exactly. |
| Inventory.Listing | fileSynchronizer.py:67-75 | One record per listed name, in listing order, carrying that file's mtime. |
| Inventory.Extension | fileSynchronizer.py:68 | The `splitext` extension is empty or starts with '.', and is a suffix of the name. |
| Inventory.ExtensionNeverExcluded | fileSynchronizer.py:67-68 | The comprehension's extension test never rejects a name, because an extension is never "docx" or "py". |
| Inventory.KeptRecordsMeaning | fileSynchronizer.py:66-78 | The scan succeeds exactly when every name has a dot. It then holds exactly the records whose second '.'-component is neither "docx" nor "py", and no more records than were listed. |
| Inventory.KeptRecordsAppend | fileSynchronizer.py:70-76 | The filter distributes over concatenation, so kept records stay in listing order and unchanged. |
| Inventory.GetFileInfo | fileSynchronizer.py:59-78 | The loop returns the filtered records, or fails as the IndexError does on a dotless name. |
| Inventory.DotlessFails | fileSynchronizer.py:71 | One name without a dot makes the whole scan fail. |
| Inventory.DotlessScanFails | fileSynchronizer.py:67-71 | A directory holding a file whose name has no dot cannot be scanned. |
| Inventory.KeptHasDot | fileSynchronizer.py:71 | A kept name has a dot. |
| Inventory.LocalMap | fileSynchronizer.py:222-224 | Every record's name is a key, and each key's value is the mtime of a record with that name. The final record's name holds the final record's mtime. |
| Inventory.LocalMapLastWins | fileSynchronizer.py:223-224 | A record with no later record of the same name gives its key its mtime, so the last record of each name wins. |
| Inventory.BuildLocalMap | fileSynchronizer.py:222-224 | The loop builds that table. |
| Inventory.LocalMapOfListing | fileSynchronizer.py:221-224 | Built from a scan of the directory, the table's keys are exactly the kept files, with their mtimes on disk. |
| Inventory.KeptFilesInLocalMap | fileSynchronizer.py:221-224 | Every kept file of the directory is a key of the table. |
| Inventory.LocalMapInFiles | fileSynchronizer.py:221-224 | Every key of the table is a kept file, with its mtime on disk. |
| Inventory.ListedNamesHaveDots | fileSynchronizer.py:71 | A directory whose scan succeeds has a dot in every name. |
| Inventory.DottedNamesListed | fileSynchronizer.py:71 | A directory with a dot in every name scans successfully. |
| Reconcile.SelectedNames | fileSynchronizer.py:226-227 | A name is fetched exactly when a directory entry with that name is missing locally or strictly newer. An equal or older local copy is never fetched, and nothing outside the directory is. The result is empty exactly when no entry qualifies. |
| Reconcile.SelectionExample | fileSynchronizer.py:226-227 | With local `a.txt`@10, the directory `a.txt`@20, `b.txt`@5 fetches both, in that order. |
| Reconcile.Retrieved | fileSynchronizer.py:229-241 | A completed fetch sets the file to the bytes received before the first empty read, with the tracker's mtime. A failed fetch changes no other file. |
| Reconcile.ServedFileArrives | fileSynchronizer.py:232-240 | A peer sends a file in `BUFFER_SIZE` slices and then closes. Whatever non-empty reads carry those bytes, the fetch completes and leaves exactly the sender's bytes, with the tracker mtime. |
| Reconcile.Apply | fileSynchronizer.py:226-241 | When the pass completes, it has requested exactly the selected names, in directory order. It never makes more requests than there are entries. |
| Reconcile.ApplyFrame | fileSynchronizer.py:226-241 | Files that are not selected keep their presence and value. |
| Reconcile.ApplyDelivers | fileSynchronizer.py:226-241 | After a completed pass over a directory with unique names, each selected file got a stream and holds what its peer delivered, stamped with the tracker's mtime. |
| Reconcile.ApplyNothingSelected | fileSynchronizer.py:226-227 | When nothing is selected, the pass requests nothing and changes nothing. |
| Reconcile.SkipStep | fileSynchronizer.py:227 | Skipping an unselected entry leaves the pass's outcome unchanged. |
| Reconcile.FetchStep | fileSynchronizer.py:227-241 | For a selected entry, a failed fetch ends the pass with that entry as the last request. A completed fetch continues with the rest of the directory. |
| Reconcile.ApplyKeepsDots | fileSynchronizer.py:226-241 | A completed pass over kept names keeps every file name dotted. |
| Reconcile.EntryUpToDate | fileSynchronizer.py:227-240 | After a completed pass, each directory entry's local copy is at least as new as the tracker's. |
| Reconcile.EntryFresh | fileSynchronizer.py:221-227 | A kept directory entry is not selected again against the table rebuilt after a completed pass. |
| Reconcile.RescanSucceeds | fileSynchronizer.py:221 | After a completed pass over kept names, the next inventory scan succeeds. |
| Reconcile.ReapplySelectsNothing | fileSynchronizer.py:220-241 | After a completed pass over unique, kept names, rescanning succeeds and the same directory selects nothing. |
| Reconcile.ExcludedNameRefetched | fileSynchronizer.py:70-72 | A directory entry whose name the inventory filter drops is never in the local table. So every round whose scan succeeds selects it again, however recent the local copy is. |
| Reconcile.PyNameExcluded | fileSynchronizer.py:71 | `x.py` is such a name. |
| Reconcile.DotlessEntryFetched | fileSynchronizer.py:221-241 | A completed pass over a directory with a dotless entry leaves a file of that name. The local table holds only dotted names, so the entry is always selected. |
| Synchronizer.MessageOfRound | fileSynchronizer.py:243-249 | Round k sends the first message until an earlier round has completed, and the liveness message after that. |
| Synchronizer.SingleRegistration | fileSynchronizer.py:245-249 | In a run of rounds where each round follows a completed one, the first round sends the registration and every later round sends `KeepAlive(port)`. |
| Synchronizer.QuietRound | fileSynchronizer.py:210-213 | A failed exchange or an empty response requests nothing, changes nothing, keeps the message and schedules nothing. |
| Synchronizer.CompletedRound | fileSynchronizer.py:210-246 | A round completes exactly when the response is non-empty, it parses, the scan succeeds and every fetch completes. It then leaves what the fetch pass leaves. |
| Synchronizer.CompletedRoundConverges | fileSynchronizer.py:220-246 | After a completed round, the round requested exactly the selected names. Every selected file holds what its peer sent, with the tracker's mtime, and every other file is unchanged. |
| Synchronizer.SecondRoundIsQuiet | fileSynchronizer.py:220-246 | Repeating a completed round on the same response requests nothing, changes nothing and completes. This holds for unique, kept names. |
| Synchronizer.DotlessEntryStopsSync | fileSynchronizer.py:220-249 | A completed round that fetches a name without a dot leaves a file the scan cannot pass. After that, whatever the tracker answers, no round completes and the directory stays as it is, so syncing stops. |
| Synchronizer.FileSynchronizer.constructor | fileSynchronizer.py:128-131 | The initial message is `Init(port, inventory scan)` and the directory is the one given. |
| Synchronizer.FileSynchronizer.ProcessMessage | fileSynchronizer.py:161-178 | An empty request gets no answer. A request naming a file gets its bytes in ceil(len / 8192) slices, which concatenate to the content. Any other request, looked up as a key of the flat directory, gets the not-found answer. |
| Synchronizer.FileSynchronizer.Retrieve | fileSynchronizer.py:229-241 | Changes the directory exactly as `Retrieved` says and leaves the message alone. |
| Synchronizer.FileSynchronizer.WriteReads | fileSynchronizer.py:232-238 | Truncates the file and leaves it holding the reads before the first empty one, stamped `now`. It reports how many reads it wrote. |
| Synchronizer.FileSynchronizer.FetchAll | fileSynchronizer.py:226-241 | Requests and changes exactly what `Apply` says. |
| Synchronizer.FileSynchronizer.Sync | fileSynchronizer.py:199-252 | First, the send loop hands the current message to `send` in `BUFFER_SIZE` slices covering it exactly. When the exchange fails, only part of them may have gone out. Then the directory, the requests and the outcome are those of `Round`. The message becomes `KeepAlive(port)` exactly when the round completes. |

## Left out

- Sockets, threads and the `threading.Timer` chain are not modelled:
  - binding, listening and accepting connections are absent;
  - the repeated rounds are modelled as a sequence of outcomes instead;
  - the concurrent server threads that share `fs` with a round are absent.
- These calls are parameters, not models: `json.dumps` and `json.loads`, `os.listdir` order, `os.path.getmtime`, the clock, and `check_port_available` (a substring test on `netstat -na` output).
- Logging output and the optparse command line are not modelled. The program's use of the validators and of the port search is also not modelled.
- Synchronizer.FileSynchronizer.ProcessMessage: the request is looked up as a key of the flat shared directory. The source opens it as a path relative to the working directory. So a path such as `./a.txt`, or a file outside the directory such as `/etc/hostname`, is served by the source but answered `NotFound` here. An open that fails with an `OSError` other than `FileNotFoundError` (permission denied, a directory) is caught by `except socket.error` at line 182, an alias of `OSError`. The requester then gets no answer at all, which the model does not capture. Three further things are not modelled:
  - The request is one `recv(2048)` decoded as UTF-8, taken here as the file name.
  - The not-found branch is modelled only as the answer `NotFound`. Its bytes are not modelled. Line 177 calls `bytes(str(...))` without an encoding, which raises before the content-length and body are sent.
  - Socket errors while sending are not modelled.
- Synchronizer.FileSynchronizer.Sync has these limits:
  - The tracker response is one `recv(2048)`, so a longer directory would be cut. Here the response text is given whole.
  - `send` is assumed to transmit each whole slice. When the exchange fails, `sent` still lists every slice the loop would hand to `send`, although the failure may have stopped it partway.
  - The message slices are characters. They match the bytes sent because `json.dumps` escapes non-ASCII characters.
- Reconcile.Retrieved: a file written by a fetch that breaks mid-stream keeps the partial body and the mtime `now`. This is what the source leaves before its exception. The model does not track further damage.
- Synchronizer.CompletedRoundConverges: the per-file equality is proved only for a directory whose names are unique, as JSON object keys are.
- Synchronizer.SecondRoundIsQuiet: idempotence is proved only for directories whose names pass the inventory filter. The other names behave in two ways, and each is proved by its own lemma:
  - A dotted name like `x.py` is never in the local table, so every round fetches it again (`Reconcile.ExcludedNameRefetched`).
  - A dotless name like `README` is fetched because it is missing locally. Every later scan then fails at line 71, so no round completes again and syncing stops (`Synchronizer.DotlessEntryStopsSync`).
- Strings: `isdigit` is ASCII-only. Python also accepts other Unicode digit characters.
- Mtimes are whole seconds. The source truncates `os.path.getmtime` with `int`, and the model takes the truncated value.
- Behaviour of the program that the model keeps as written:
  - A failed fetch raises out of the per-file loop and aborts the whole round.
  - An aborted round, or one with an empty response, arms no further round, since only the end of a completed round starts the timer (lines 248-249).
  - The constructor raises on a file name without a dot, so the constructor requires a directory whose scan succeeds.
  - A file missing locally is fetched whatever its tracker mtime.
