# ftpii in Dafny

A verified model of ftpii, an FTP server for the Wii: the virtual path layer, the control connection, the commands and
their login, data connections and transfers, the client table and its event loop, the mounting of devices, and the DOL
loader. The model keeps the form of the program. What the program changes in place (client records, the line buffer,
output strings, the globals of the mount menu, memory under a DOL image) are classes and arrays here, changed by methods
with the same branches and loops, and each method is proved against a specification that does not mention its steps.

Verify everything with `dafny verify dfyconfig.toml`.

## Structure

| file | program part |
|---|---|
| `CStrings.dfy` | NUL-terminated strings in buffers and the string.h routines in use |
| `Paths.dfy` | the reference for paths: a stack of names, folded over slash-separated components |
| `Partitions.dfy` | the partition table |
| `Vrt.dfy` | `virtual_abspath`, `to_real_path`, `vrt_stat`, `vrt_chdir`, `with_virtual_path` |
| `Splitting.dfy` | `split`, against a declarative split |
| `Framing.dfy` | the line framer's buffer, against a reference reading of the byte stream |
| `Cuts.dfy` | the framer on a whole stream: what cutting it into reads can change, and what it cannot |
| `Commands.dfy` | the command tables and `dispatch_to_handler` |
| `Sessions.dfy` | the log of a run, the rules its events obey, and what these promise about whole runs |
| `Journals.dfy` | the running log, kept with the state that it implies |
| `Resources.dfy` | descriptors and file handles, accounted for by client |
| `Net.dfy` | `transfer_exact`, `send_from_file`, `recv_to_file`, and whole transfers |
| `Server.dfy` | clients, handlers, data connections, the event loop, the shutdown, whole runs |
| `Mounts.dfy` | mounting, the remount menu, the poller, the DVD wait flag |
| `Dol.dfy` | `load_dol_image` |

The outside world is an argument. What a command meets (was there a socket, did it bind, did the file open, could a reply
be delivered) is of type `Server.Outside`; what a data connection has in store for reads and writes, `Server.Peer`; what
arrives on a control connection, a sequence of `Server.Read`; connection attempts, a sequence of `Server.Knock`; what
drivers, cards and clocks answer, `Mounts.Outside`. Every event is specified for all of these. Only the numbers of new
descriptors and handles, and which negative number an error is, are left open. Classes and ghost fields remember what
went through.

Some predicates are written behind one case, as `forall x | x == v :: P(x)`, which says P(v). The verifier then unfolds
P only where a proof mentions P(v), and the many proofs that merely pass the predicate on stay short.

## Main results

* **Paths.** The four-state scanner, which edits one output buffer in place and never writes past strlen(path)+1 bytes,
  returns exactly the rendering of the stack fold, for every path. Normalising is idempotent. Translation to real paths
  is injective up to the letter case of the alias, every real path stays below its device's root, and at most one table
  entry can match. Every reachable working directory is canonical, and changing directory twice is changing once along
  the joined path. What a path means is also said outright, without the fold: a name goes one level down, "" and "."
  stay, ".." goes one level up and never above the root. The same holds for translation and its errors.
* **Framing.** In every reachable state all bytes received are the consumed lines with their CRLFs, in order, followed
  by what the buffer holds. For a stream without a NUL, the lines, the left-over bytes and the way a connection closes
  depend on the bytes alone, not on how they were cut into reads. For a stream with its first NUL at q it is known
  exactly when the cutting matters: all cuttings consume the same lines if and only if no line in front of the NUL is
  consumed, or the last of them begins so early that it and the NUL do not fit in one read.
* **Replies.** Every connection's history, at every moment of every run, is a 220, then finished exchanges (a command
  and one reply, or a command, 150 and one 226 or 520, with no other command in between), then at most one exchange
  under way, and an ending only after a failed write, a QUIT, a hangup or the 421.
* **Control events.** For whatever a client's connection has in store, a control event takes in exactly the reads up to
  the first that is EAGAIN, an error, the end of the stream or has a NUL in it, or after which the framer or a command
  ends it. The client is lost if and only if the last read was one of the latter three, waits if and only if it was
  EAGAIN, and the bytes received are those of the reads, no more and no less.
* **Commands.** Every command does to the connection's state what it is for, leaves the rest of it alone, and sends the
  one reply that its outcome calls for; the handler that runs is the one whose own word begins the line.
* **Login.** Every call of a handler outside USER, PASS, QUIT, REIN, NOOP and the login reminder is preceded by a PASS
  of the same connection with no REIN since, whose argument was the password in force at that moment, if there was one.
  And every such PASS logs in.
* **Descriptors and handles.** Between events the open descriptors are the disjoint union of what the clients in the
  table own, a waiting transfer's borrowed passive socket counted once. Nothing is closed twice, and nothing is open
  after the shutdown. Files and directories are owned the same way, with one exception that the program has: when
  setting up a data connection fails after the 150 and the 520 can still be delivered, the caller takes the
  non-negative result for a started transfer and never closes the handle. A command loses a handle if and only if it is
  a transfer command whose file or directory opens, the client is not in passive mode, no socket was to be had or it
  did not bind, and both replies were delivered; then it loses exactly one. Over a whole run the handles left open are
  as many as the setups in the log that failed and were excused with a delivered 520, so none is open exactly when
  there was no such setup. `Server.LoseHandle` is a concrete run that ends with an open handle.
* **Transfers.** A download, once connected, ends in a 226 exactly when every byte of the file from the restart
  position on was delivered in order and read without error, after n/32768+1 steps, and that is so whenever the file
  can be read and the socket takes something of every write. An upload ends in a 226 exactly when the peer's end of
  stream was reached with every received byte in the file: a peer that sends its bytes in any pieces over any number of
  events and closes gets a 226 if there is room for them, and the file is what it sent. A 520 means an error of the
  file's or the socket's own. Both hold for the transfers of the server, whose steps alternate with those of other
  clients, and any of these may shrink the shared buffer size.
* **Devices.** The devices are a state machine whose every step is given by what the drivers and clocks answer, and the
  classes' methods refine it over whole runs. In every run, disc file system libraries are only called with the wait
  flag down, the poller never retries an SD Gecko that it gave up on before a mount of it succeeded and never looks at
  the device that the menu waits for, and an expired menu timer always mounts and never reopens the menu. Nothing that
  is put in or taken out goes unnoticed: a new card is mounted, a new disc starts the drive, and what is gone is
  unmounted.

## Model

| member | source | states |
|---|---|---|
| `CStrings.StrLen` | source/ftp.c:850 | the length of the NUL-terminated string found in a buffer, as strlen gives it |
| `CStrings.Append` | source/vrt.c:87 | strncat of one byte: the buffer spells the old string and the byte, provided there is room |
| `CStrings.StrRChr` | source/vrt.c:79 | strrchr: the last place of a byte, -1 only when it is nowhere |
| `CStrings.Contains` | source/ftp.c:830 | strchr: true exactly when the byte is in the string |
| `CStrings.IgnoringCaseMeans` | source/ftp.c:588 | strcasecmp: equal exactly when equally long and byte by byte the same, or one letter in two cases |
| `Paths.WalkStep` | source/vrt.c:37-99 | reading one more component after a slash is one step of the directory stack; what a step is, `Paths.WalkMeans` says |
| `Paths.WalkMeans` | source/vrt.c:58-87 | a name leads one level down, "" and "." nowhere, and ".." one level up, or nowhere from the root |
| `Paths.NormaliseMeans` | source/vrt.c:37-99 | for a name x, "p/x/.." and "p/" and "p" have the same normal form, so have "p/.", "p//" and "p/", "/.." is "/", and "p/x" is the normal form of p with "/x" behind it |
| `Paths.WalkThroughDir` | source/vrt.c:37-99 | resolving "p/q" is resolving q from the directory that p leads to |
| `Paths.NormaliseIdempotent` | source/vrt.c:37-99 | normalising a normalised path changes nothing |
| `Paths.NormaliseIsWalk` | source/vrt.c:37-99 | two paths have the same normal form exactly when they lead to the same directory stack |
| `Paths.RenderInjective` | source/vrt.c:37-99 | different stacks have different spellings |
| `Paths.NormaliseLength` | source/vrt.c:48 | the normal form of an absolute path is never longer than the path, so a buffer of strlen(path)+1 bytes is enough |
| `Partitions.TableSpelling` | source/fs.c:53-65 | each table entry's alias, mount point and prefix are one lower-case name spelt "/x", "x" and "x:/" |
| `Partitions.NamesDistinct` | source/fs.c:53-65 | no two entries share a name |
| `Vrt.PopDirectory` | source/vrt.c:78-82 | the ".." case in place: the buffer is cut back to the parent directory, or to "/", and curr_dir is its last slash |
| `Vrt.Advance` | source/vrt.c:56-88 | one turn of the four-state machine: a slash closes the component as the directory stack says, any other byte is appended, and the state says whether "", ".", ".." or a name was read since the last slash |
| `Vrt.Scan` | source/vrt.c:53-89 | the whole in-place scan, inside a buffer of strlen(path)+1 bytes, spells the stack fold over the components of any absolute path |
| `Vrt.TrimSlashes` | source/vrt.c:91-94 | trailing slashes go, but never the first one: the result is the canonical rendering |
| `Vrt.VirtualAbspath` | source/vrt.c:37-99 | the normal form of the path, joined to the working directory if it is relative; nothing exactly when a relative path and the working directory do not fit in MAXPATHLEN bytes together |
| `Vrt.FindEntry` | source/vrt.c:127-139 | the table scan stops at the entry named by the path's first component, letter case aside, and at the end when there is none |
| `Vrt.ToRealPath` | source/vrt.c:109-156 | the real path is the entry's prefix and the remaining names; "" for the virtual root; an error for a colon, an unknown device, or a result that does not fit |
| `Vrt.TranslateMeans` | source/vrt.c:109-156 | without a colon and if it fits, a path with no name in it is "", one whose first name no entry has is ENODEV, and any other is that entry's mount point, ":/" and the remaining names, if that fits; else ENOENT |
| `Vrt.OneMatch` | source/vrt.c:129-139 | at most one table entry matches a normalised path, so the order of the table is irrelevant |
| `Vrt.RealPathShape` | source/vrt.c:140-151 | every real path is one table prefix and a remainder without empty, "." or ".." components, as long as the virtual path (one more for a bare alias), and fits in MAXPATHLEN |
| `Vrt.RealPathInverse` | source/vrt.c:101-108 | a real path can be translated back to the normalised virtual path, with the alias in lower case |
| `Vrt.SameRealPath` | source/vrt.c:109-156 | two virtual paths have the same real path if and only if they agree up to the letter case of the alias |
| `Vrt.WithVirtualPath` | source/vrt.c:160-187 | an operation runs only on the real path, never for the virtual root or an invalid path |
| `Vrt.StatPath` | source/vrt.c:193-203 | the virtual root is a directory, an invalid path is missing, anything else is what the device says |
| `Vrt.Chdir` | source/vrt.c:205-222 | chdir succeeds exactly when the path leads to the virtual root or to a real path that is a directory, and then the working directory is the directory's spelling with its final slash; after a failure it is unchanged |
| `Vrt.ChdirKeepsCwd` | source/vrt.c:218-219 | the new working directory is canonical, ends in a slash and has no colon |
| `Vrt.CdupGoesUp` | source/ftp.c:227-236 | chdir to ".." leads from a directory to the one above it, and from the root to the root |
| `Vrt.ChdirComposes` | source/vrt.c:205-222 | chdir p1 and then p2 gives the same result as chdir p1/p2, failures of p2 included, whenever the joined paths fit |
| `Splitting.Split` | source/ftp.c:119-153 | the one-pass split stores the declarative split in the caller's buffers, empties the unused ones, and returns the number of pieces |
| `Splitting.TakeByte` | source/ftp.c:125-143 | a byte that is kept opens the next slot or joins the current one, and trim_pos is where a trailing run of separators began |
| `Splitting.FinishSplit` | source/ftp.c:145-152 | the last piece loses its trailing separators and unused slots become empty |
| `Splitting.SplitShape` | source/ftp.c:115-118 | pieces are never empty, all but a last full-length remainder are free of separators, and that remainder is trimmed at both ends |
| `Splitting.SplitUndoesJoin` | source/ftp.c:119-153 | splitting a joined list of separator-free words and a trimmed remainder gives the list back |
| `Splitting.SplitKeepsBytes` | source/ftp.c:119-153 | no byte but separators is lost, doubled or reordered |
| `Splitting.SplitComposes` | source/ftp.c:598-600 | splitting the last piece again is one larger split |
| `Framing.FrameConsumed` | source/ftp.c:827-846 | clean, accepted lines at the front of a stream are read off one by one, in order |
| `Framing.FrameMeans` | source/ftp.c:825-854 | the first complete line of a stream closes the connection if it is over 1021 bytes long or has a line feed in it; else it is consumed, and refused only by its handler, and an empty line by none |
| `Framing.FrameWaits` | source/ftp.c:802-854 | a stream without a complete line is waited for, up to 1022 bytes of it |
| `Framing.FrameSettled` | source/ftp.c:827-846 | once the stream closes the connection, later bytes change nothing |
| `Framing.RunIsFrame` | source/ftp.c:800-856 | the consumed lines and the ending of any run are the reference reading of the bytes received, for every kind of ending |
| `Framing.ChunkingIrrelevant` | source/ftp.c:800-856 | two runs of the buffer over one NUL-free stream, cut up in any two ways, with handlers that answer alike, consume the same lines and stop the same way with the same left-over |
| `Framing.CuttingMattersWithNul` | source/ftp.c:819-822 | an example: for a stream that is one clean line with a NUL right behind it, a single read loses the line with the connection, and a cut in front of the NUL lets the line through |
| `Framing.SomeHandlers` | source/ftp.c:835-842 | whatever a run's handlers answered, there are handlers that answer so |
| `Framing.LineBuffer.constructor` | source/ftp.c:725 | a new buffer is empty |
| `Framing.LineBuffer.Receive` | source/ftp.c:807-822 | the bytes read are appended behind the held ones, with a NUL behind them, and a NUL among them is noticed |
| `Framing.LineBuffer.FindCrlf` | source/ftp.c:826 | strstr: the place of the first CRLF, or none |
| `Framing.LineBuffer.CutLine` | source/ftp.c:827-828 | the line is cut off in place, its bytes and those behind it intact, and a bare line feed in it is noticed |
| `Framing.LineBuffer.NextLine` | source/ftp.c:825-831 | the next complete line is consumed exactly once and in order, or refused for a bare line feed, or none is there |
| `Framing.LineBuffer.Compact` | source/ftp.c:847-852 | the unconsumed bytes move to the front and stay what they are |
| `Framing.LineBuffer.MakeRoom` | source/ftp.c:802-854 | after a scan there is room again, or 1023 bytes hold no CRLF and the line is too long |
| `Framing.LineBuffer.IsOpen` | source/ftp.c:802-806 | a connection that waits, with nothing complete left over, is what the reference calls open |
| `Framing.LineBuffer.IsTooLong` | source/ftp.c:854 | the over-length close happens only when 1023 bytes hold no CRLF |
| `Framing.LineBuffer.IsRefused` | source/ftp.c:835-842 | a refused command leaves the bytes behind it accounted for |
| `Cuts.CuttingIrrelevant` | source/ftp.c:800-856 | for a stream without a NUL, however it is cut into reads and whatever the handlers answer, the consumed lines, the left-over and the way it ends are those of the reference; streams that end, or are closed on, included |
| `Cuts.CuttingWithNul` | source/ftp.c:819-822 | for a stream with its first NUL at q, all cuttings consume the same lines if and only if no line in front of the NUL is consumed, or the last one that is and the NUL do not fit in one read of 1023 bytes |
| `Cuts.NoCutMatters` | source/ftp.c:819-822 | in these two cases every cutting consumes exactly the lines in front of the NUL |
| `Cuts.LosingCut` | source/ftp.c:819-822 | in any other case there is a cutting that loses the last line |
| `Cuts.BytewiseConsumes` | source/ftp.c:819-822 | read byte by byte, all lines in front of the NUL are consumed |
| `Cuts.ScanAll` | source/ftp.c:825-854 | the scan over the buffer, its lines answered by a function, reads the held bytes as the reference does |
| `Cuts.Feed` | source/ftp.c:800-856 | the buffer and its scan, run over a whole stream with reads of the given sizes, come to the outcome that the lemmas speak of |
| `Cuts.FeedWithoutNul` | source/ftp.c:800-856 | and for a stream without a NUL to the reference reading, whatever the sizes |
| `Commands.LookupIgnoresCase` | source/ftp.c:587-591 | letter case of a command word never matters |
| `Commands.DispatchToHandler` | source/ftp.c:584-593 | the first table entry that the line's first word names picks the handler, the entry behind the last one is the default, and the handler gets the trimmed rest |
| `Commands.HandlerHasItsWord` | source/ftp.c:595-634 | the handler that runs is one whose own command word begins the line, letter case aside; the default of a table runs only for words that are not in it |
| `Commands.Pick` | source/ftp.c:595-653 | the table for connections without a login leads to public handlers only, and only SITE's table leads to SITE's handlers |
| `Commands.SiteSplitsInThree` | source/ftp.c:598-600 | SITE's second dispatch amounts to splitting the line into three |
| `Commands.ArgumentIsShorter` | source/ftp.c:584-587 | command word and argument fit in buffers as large as the line |
| `Sessions.LoginBehind` | source/ftp.c:159-174 | being logged in means a PASS whose argument was the password in force at that moment, if there was one, and no REIN or new connection since |
| `Sessions.LoginHolds` | source/ftp.c:159-174 | and every such PASS means being logged in |
| `Sessions.PrivilegedNeedsLogin` | source/ftp.c:639-655 | in every run, a handler outside the public six runs only behind such a PASS of the same connection |
| `Sessions.PasswordInForce` | source/ftp.c:541-549 | the password in force is that of the last SITE PASSWD, none after SITE NOPASSWD, else the initial one |
| `Sessions.OnlyTransfersAnnounce` | source/ftp.c:371-388 | only LIST, NLST, RETR, STOR and APPE may reply 150 |
| `Sessions.HistoryStep` | source/ftp.c:639-655 | one more event continues a connection's history in the bracketed form |
| `Sessions.HistoryOf` | source/ftp.c:800-872 | in every run, at every moment, a connection's events are a 220 greeting, finished exchanges (one reply, or 150 and one 226 or 520), at most one exchange under way, and one of the allowed endings |
| `Sessions.ExcusedIsCount` | source/ftp.c:376-388 | in every safe run the failed setups that were excused to the client with a delivered 520 are counted right |
| `Sessions.SafeAt` | source/ftp.c:639-655 | in a safe run every event was allowed at the moment it happened |
| `Journals.Journal.IsSafe` | source/ftp.c:639-655 | a server's log is safe, and its fields are what the log implies |
| `Journals.Journal.Dispatched` | source/ftp.c:833-835 | a line is dispatched only while the connection owes nothing |
| `Journals.Journal.Ran` | source/ftp.c:592 | a handler runs only on behalf of a dispatched line, and only with a login unless it is public |
| `Journals.Journal.Failed` | source/ftp.c:376-379 | a setup fails only after a delivered 150, and what is owed then is a 520 |
| `Journals.Journal.Replied` | source/ftp.c:99-106 | a reply goes out only when owed, with one of the codes the handler may give |
| `Resources.Descriptors.Accept` | source/ftp.c:703 | a new client's descriptor is none that is open |
| `Resources.Descriptors.Open` | source/ftp.c:295 | a new socket is none that is open, and belongs to one client; when none is granted nothing changes |
| `Resources.Descriptors.Close` | source/net.c:69-72 | only an open descriptor is closed, and only on behalf of its owner |
| `Resources.Handles.Open` | source/ftp.c:460-464 | a new handle is none that is open |
| `Resources.Handles.Close` | source/ftp.c:664-666 | only an open handle is closed, and only on behalf of its holder |
| `Resources.Handles.Leak` | source/ftp.c:376-379 | a handle that its holder lets go of without closing stays open and is on file as lost |
| `Net.SendExact` | source/net.c:101-130 | 0 exactly when the whole buffer went out in order, else the socket's own error, after some prefix: an answer that takes something never ends it; an EINVAL, and nothing else, shrinks the shared buffer size, at most once per program |
| `Net.SendFromFile` | source/net.c:132-149 | one step reads the next 32768 bytes of the file, as far as it can be read, and sends them in order; EAGAIN after a full chunk, 0 after the last, -1 when the file could not be read, else the socket's own error with something unsent |
| `Net.RecvToFile` | source/net.c:151-170 | the file gains exactly the bytes that the peer has in store, in order, and the result is what ended them: 0 for the end of the stream, EAGAIN, or an error; with too little room the file gains what fits, and the result is -1 |
| `Net.ContinueDownload` | source/ftp.c:780-782 | the same step for a download under way: the next chunk is read and delivered, or the file or the socket fails |
| `Net.ContinueUpload` | source/ftp.c:780-782 | the same step for an upload under way: all that is in store is received and written, or there is no room for it |
| `Net.DownloadGoes` | source/net.c:132-149 | such a step goes on with all so far delivered, is through with everything from the start on delivered, or failed, and which of these is said by the result; a socket that takes something of every write never fails it |
| `Net.UploadGoes` | source/net.c:151-170 | the result is 0 if and only if the peer's end of stream was reached, EAGAIN if and only if the upload may go on, and else the file or the socket failed |
| `Net.Download` | source/ftp.c:756-798 | 226 exactly when all bytes from the restart marker on (or from the end of a shorter file) were delivered in order and read without error, after n/32768+1 steps, other transfers in between; always so if the file is readable and the socket takes something of every write |
| `Net.Upload` | source/ftp.c:756-798 | 226 if and only if the peer's end of stream was reached and no write fell short, 520 if and only if the file or the socket failed; a peer that sends its bytes in any pieces and closes gets a 226 if there is room, and the file is what it sent |
| `Mounts.TrailSays` | source/fs.c:129-132 | the wait flag, each gecko flag and the menu's device say what happened last in the log |
| `Mounts.DvdCallsWithFlagDown` | source/fs.c:134-200 | in every run each mount or unmount call of ISO9660, WOD or FST happens with the wait flag down |
| `Mounts.GeckoLeftAlone` | source/fs.c:237-240 | once the poller gave up on an SD Gecko, it does not try again before a mount of it succeeded |
| `Mounts.PollerKeepsOff` | source/fs.c:229 | from the choice in the menu to the end of the wait, the poller does not look at the chosen device |
| `Mounts.Devices.MountDvd` | source/fs.c:139-150 | flag up, drive told, and, if the drive gets ready, flag down and library called, in that order; the flag stays up otherwise |
| `Mounts.Devices.MountFat` | source/fs.c:151-169 | no call when the interface does not start (an SD Gecko's is tried twice), else fatMount, and ntfsMount exactly when that fails and an NTFS partition is found; success is that of the last call |
| `Mounts.Devices.MountFatOrNtfs` | source/fs.c:155-164 | fatMount, and then ntfsMount exactly when that fails and an NTFS partition is found |
| `Mounts.Devices.Mount` | source/fs.c:134-183 | refused without a call for no partition, a mounted one, or a disc while the flag is up, and in any other case mounted in its file system's way; a success clears the gecko flag |
| `Mounts.MountMeans` | source/fs.c:134-183 | what an attempt logs, spelt out for cards, Geckos and discs |
| `Mounts.Devices.Unmount` | source/fs.c:189-215 | refused without a call exactly for one that is not mounted, or a disc while the flag is up; else its file system's calls, both fatUnmount and ntfsUnmount for a FAT device, which always counts as a success |
| `Mounts.Devices.DvdUnmount` | source/dvd.c:57-62 | WOD, FST and DVD are unmounted in turn, none while the flag is up, and the motor is stopped |
| `Mounts.Devices.WasInsertedOrRemoved` | source/fs.c:109-127 | the polled partition's flag becomes what the device says and no other changes; a change is a flag that differs from what was there or was mounted |
| `Mounts.LookMeans` | source/fs.c:109-127 | the flag is what isInserted says for a card, what the cover register says for the DVD, unless the flag is up or it cannot be read, the DVD's for WOD and FST, and unchanged for a device that cannot be watched |
| `Mounts.Devices.AutoMount` | source/fs.c:231-241 | the attempt, and, when it fails for an SD Gecko, and only then, its flag is set |
| `Mounts.Devices.React` | source/fs.c:231-245 | an insertion of the DVD only starts the drive, one of WOD or FST does nothing, any other device that is not mounted is mounted; a removed device that is mounted is unmounted, unless it is a disc and the flag is up |
| `Mounts.Devices.Poll` | source/fs.c:226-247 | the whole of a turn: the look, and the reaction exactly when something changed; a given-up SD Gecko is looked at and otherwise left alone |
| `Mounts.PollMeans` | source/fs.c:226-247 | a turn's log in each case: a new card that is not mounted is attempted, a new disc starts the drive, what is gone and was mounted is unmounted, and anything else is only looked at |
| `Mounts.ChangeIsNoticed` | source/fs.c:223-250 | whenever it is time to poll, a new card is mounted, a new disc starts the drive, and a mounted device that is gone is unmounted, unless the menu waits for it |
| `Mounts.Devices.CheckRemovableDevices` | source/fs.c:223-250 | when it is time, every partition has its turn once in table order, except the one the menu waits for, and the log is that of the turns |
| `Mounts.Devices.ProcessRemountEvent` | source/fs.c:252-276 | the button opens the menu, or, during a wait, ends it and mounts the chosen device |
| `Mounts.Devices.ProcessDeviceSelectEvent` | source/fs.c:278-300 | a choice in the menu unmounts the device and starts a wait of 30 seconds; the DVD is refused while the drive is getting ready; outside the menu nothing happens |
| `Mounts.Devices.CheckMountTimer` | source/fs.c:302-304 | an expired wait, and no other, mounts the chosen device and closes the menu |
| `Mounts.MenuMeans` | source/fs.c:252-304 | B, a button, and then the end of 30 seconds: the menu is shown, the device is unmounted and waited for, nothing happens before the time, and then it is mounted |
| `Mounts.ButtonMeans` | source/fs.c:280-284 | left is the front SD, right USB, up and down the two Geckos, 1 the DVD |
| `Mounts.Devices.CheckDvdMotorTimeout` | source/dvd.c:69-75 | a drive that was used since it was last stopped, then idle for 300 seconds, and is not getting ready, and no other, is unmounted and stopped |
| `Mounts.Devices.CheckDvdMount` | source/dvd.c:77-89 | once the drive is ready and the flag is up, and not before, the flag is lowered first, then the three libraries are called once each |
| `Mounts.Devices.Run` | source/fs.c:129-304 | over every sequence of buttons, timer rounds and SITE commands, and all that the outside world answers, state and log are those of the state machine, and the log is safe |
| `Mounts.Devices.ProcessTimerEvents` | source/ftpii.c:103-108 | the motor's timeout, the menu's timer and the poller, in this order |
| `Mounts.ToVirtualPartition` | source/fs.c:80-86 | the entry whose whole alias is the argument, letter case aside, and none only if there is none |
| `Dol.ImageSurvives` | source/dol.c:54-63 | sections that keep off the image leave it as it was, so the header read last is the header read first |
| `Dol.LastSectionWins` | source/dol.c:54-63 | after loading, an address holds the byte of the last loaded section that covers it, or what it held before |
| `Dol.SectionMeans` | source/dol.c:55-61 | an empty section, or one below 0x100, changes nothing; any other puts its bytes of the image where it starts, and nothing else changes |
| `Dol.LoadDolImage` | source/dol.c:51-72 | memory is the old memory overwritten by the loaded text and data sections in order, then by the argument block at entry_point+8 if its magic fits, else by nothing more; the entry point is returned |
| `Dol.LoadSections` | source/dol.c:54-63 | the two loops copy the eighteen sections in order |
| `Dol.LoadSection` | source/dol.c:55-61 | an empty section, or one below 0x100, is skipped; any other is copied as memmove does |
| `Dol.FromBytes` | source/dol.c:40-49 | words are big-endian |
| `Dol.InstallArgv` | source/dol.c:65-69 | the argument block is installed exactly with the right magic, and only then must there be room for it |
| `Server.Client.constructor` | source/ftp.c:717-733 | a new client is at "/", without login, data connection or pending bytes |
| `Server.FtpServer.constructor` | source/ftp.c:79 | no clients, nothing open |
| `Server.FtpServer.WriteReply` | source/ftp.c:99-106 | a reply moves the connection on as its code and its delivery say, and touches nobody else |
| `Server.FtpServer.Say` | source/ftp.c:155-639 | the one reply of a handler that starts no transfer, with what the handler means for login and password |
| `Server.FtpServer.ClosePassiveSocket` | source/ftp.c:108-113 | the passive socket is closed if there is one, and the client's descriptors stay accounted for |
| `Server.FtpServer.LeavePassiveMode` | source/ftp.c:108-113 | the same while a command is being served, with everything else of the client in order |
| `Server.FtpServer.FtpPass` | source/ftp.c:159-166 | 230 and a login exactly when there is no password in force or the argument is that password, else 530 and no change |
| `Server.FtpServer.FtpRein` | source/ftp.c:168-174 | login, working directory and passive socket are gone |
| `Server.FtpServer.FtpQuit` | source/ftp.c:176-180 | 221, and the connection closes; the internal code marks a delivered goodbye |
| `Server.FtpServer.FtpCwd` | source/ftp.c:218-236 | 250 and the new directory exactly when the path leads to a directory, else 550 and the old one |
| `Server.FtpServer.FtpRnfr` | source/ftp.c:263-266 | the source of a rename is kept |
| `Server.FtpServer.FtpRnto` | source/ftp.c:268-280 | 503 exactly without a pending RNFR, which is used up |
| `Server.FtpServer.FtpRest` | source/ftp.c:508-517 | a readable non-negative offset becomes the restart marker |
| `Server.FtpServer.FtpPasv` | source/ftp.c:293-322 | the old passive socket is closed, and a new one stays open, with a 227, exactly when a socket is granted, binds and listens |
| `Server.FtpServer.FtpPort` | source/ftp.c:324-343 | a well-formed address ends passive mode, a malformed one changes nothing |
| `Server.FtpServer.FtpSitePassword` | source/ftp.c:541-549 | the password in force is the new one, or none |
| `Server.FtpServer.FtpPlain` | source/ftp.c:155-639 | the handlers that keep nothing: exactly one reply, with a code from the handler's argument and the outcome of the operation behind it; SITE LOADER and no other sets the reset flag |
| `Server.FtpServer.PrepareActive` | source/ftp.c:345-363 | a bound socket of the client's own exactly when one is granted and binds, else an error with nothing left open |
| `Server.FtpServer.SetUp` | source/ftp.c:365-386 | it fails if and only if the client is in active mode and no socket was granted or it did not bind; the passive socket is borrowed or a new one is made, and after an error nothing has changed |
| `Server.FtpServer.PrepareDataConnection` | source/ftp.c:371-388 | 150, then a transfer, or a failed setup and a 520; the result is negative exactly when one of these replies could not be delivered, and the handle is lost exactly when the setup fails and both could |
| `Server.FtpServer.Excuse` | source/ftp.c:376-379 | the 520 for a failed setup: with its delivery the handle is lost, and the failure is counted |
| `Server.FtpServer.StartTransfer` | source/ftp.c:432-434 | the handle ends up with the transfer, closed, or lost; lost exactly in active mode without a bound socket when 150 and 520 were delivered, so never in passive mode; the transfer has 30 seconds to be connected |
| `Server.FtpServer.OpenFile` | source/vrt.c:189-191 | a file handle exactly when the client's path has a real path behind it, not the virtual root, and that one opens |
| `Server.FtpServer.OpenDirectory` | source/vrt.c:243-256 | a directory handle for the virtual root, and for a real path exactly when it opens |
| `Server.FtpServer.OpenAtMarker` | source/ftp.c:460-502 | the file opens and the marker can be reached, or nothing stays open; STOR uses the marker up in any case, RETR once its file was opened, APPE never |
| `Server.FtpServer.RefuseOrStart` | source/ftp.c:480-487 | 550 without a handle, else the announced transfer; a handle is lost exactly when there was one and its setup failed with both replies delivered |
| `Server.FtpServer.FtpFile` | source/ftp.c:460-506 | RETR, STOR and APPE: what `Server.FtpServer.TransferMeans` says; the result is negative exactly when a reply could not be delivered, and the handle is lost in exactly the case above |
| `Server.FtpServer.FtpListing` | source/ftp.c:422-458 | LIST and NLST likewise, for directories |
| `Server.ListedPathMeans` | source/ftp.c:436-447 | LIST ignores a first word that begins with "-", NLST does not, and without a path both list "." |
| `Server.TypeMeans` | source/ftp.c:186-203 | TYPE knows A, I and A N, in any letter case, and no other one or two words |
| `Server.FtpServer.CwdMeans` | source/ftp.c:218-236 | CWD goes where its argument says and CDUP one level up: there with 250, or nowhere with 550 |
| `Server.FtpServer.CommandMeans` | source/ftp.c:155-639 | only CWD, CDUP and REIN move; only PASS, with the password in force if there is one, logs in, and only REIN out; what RNFR names is pending until RNTO; only SITE changes the password or sets the reset flag |
| `Server.FtpServer.TransferMeans` | source/ftp.c:422-506 | a transfer starts only by its own command, for a file or directory that is there, after a delivered 150, and in passive mode or with a bound socket; it sends a listing, sends the file or receives it as the command says |
| `Server.FtpServer.RestThenRetr` | source/ftp.c:460-517 | REST and then RETR: the download starts at the offset, or at the end of a shorter file, and the offset is used up |
| `Server.FtpServer.FtpSite` | source/ftp.c:595-600 | SITE picks one of its own handlers for its argument, and that one replies |
| `Server.FtpServer.Handle` | source/ftp.c:592 | the handler does what the command is for and nothing else, to the client, the server and the log; it loses one handle if it is a transfer command that finds its file and whose setup fails with both replies delivered, and none otherwise |
| `Server.FtpServer.ProcessCommand` | source/ftp.c:636-655 | the table is chosen by the login before the command, exactly one line is dispatched, and the handler it names runs with its argument and does what it is for, with the exact condition for a lost handle |
| `Server.FtpServer.DropDataSocket` | source/ftp.c:658-661 | the data socket is closed unless it is the borrowed passive one |
| `Server.FtpServer.CleanupDataResources` | source/ftp.c:657-670 | socket and handle are closed once, and every field of the data connection is clear |
| `Server.FtpServer.ReleaseResources` | source/ftp.c:672-675 | nothing of a leaving client stays open |
| `Server.FtpServer.LeaveTable` | source/ftp.c:676-684 | exactly the client's slot is emptied, and num_clients stays the number of clients |
| `Server.FtpServer.CleanupClient` | source/ftp.c:672-686 | the client hangs up and leaves, and everybody else stays in order |
| `Server.FtpServer.AwaitConnection` | source/ftp.c:758-779 | connected exactly when an accept or connect succeeds, or the socket was connected already; a connect under way is waited for, any other error is the result, and after the deadline the wait ends; the borrowed socket is replaced by one of its own |
| `Server.FtpServer.CallBack` | source/ftp.c:780-782 | a step of a download or upload is the step of `Net` on the client's own file and socket, with a buffer size that other clients may have shrunk; a listing takes one step |
| `Server.FtpServer.StepTransfer` | source/ftp.c:758-782 | without a connection it is awaited, with one the callback makes a step, and this decides the result |
| `Server.StepMeans` | source/ftp.c:780-791 | the result of a step is 0 exactly for an upload that reached the end of the stream, and only for a download that delivered everything; a file's transfer fails if and only if the file or the socket did |
| `Server.FtpServer.EndTransfer` | source/ftp.c:785-791 | everything is cleaned up, then exactly one completion is sent |
| `Server.FtpServer.ProcessDataEvents` | source/ftp.c:756-798 | the transfer's turn as above, for whatever its connection has in store; it goes on silently with its callback, or ends with exactly one reply, 226 if the result was 0 and else 520, and a client that could not be told leaves; everything stays in order |
| `Server.FtpServer.RunLine` | source/ftp.c:833-843 | an empty line is not dispatched, any other is |
| `Server.FtpServer.ScanStep` | source/ftp.c:826-846 | one line is consumed and run, or refused, or none is complete |
| `Server.FtpServer.Scan` | source/ftp.c:825-846 | lines run until none is complete, a transfer begins or the connection must close; the bytes stay accounted for |
| `Server.FtpServer.ReadOnce` | source/ftp.c:807-822 | an error, the end of the stream or a NUL loses the connection, EAGAIN waits, anything else is appended and scanned |
| `Server.FtpServer.ScanOnce` | source/ftp.c:824-852 | after a scan nothing complete is left over unless a transfer began |
| `Server.FtpServer.ServeControl` | source/ftp.c:800-856 | the loop of reads and scans for one client, over what its connection has in store: reads are taken in order and none left out; it ends with the first that is EAGAIN (and waits), or an error, the end of the stream or a NUL (and is lost), or when the framer or a command ends it |
| `Server.FtpServer.ProcessControlEvents` | source/ftp.c:800-856 | the bytes received are those of the reads taken; the client is lost if and only if the last of these was an error, the end of the stream or had a NUL in it, waits if and only if it was EAGAIN, and keeps its slot unless it is lost or closed; the lines sent to process_command are the consumed non-empty ones, in order; the way a run stops is what the reference says; everything stays in order |
| `Server.FtpServer.Greet` | source/ftp.c:717-735 | a new client gets 220 first |
| `Server.FtpServer.TakeSlot` | source/ftp.c:740-746 | an admitted client gets the first free slot, and there is one |
| `Server.FtpServer.TurnAway` | source/ftp.c:711-715 | a connection too many is closed |
| `Server.FtpServer.Dismiss` | source/ftp.c:735-738 | a client that could not be greeted leaves nothing behind |
| `Server.FtpServer.AcceptOne` | source/ftp.c:703-747 | what becomes of a connection attempt, with its events and its slot: nobody, an error, a full table, a failed greeting, or the first free slot |
| `Server.FtpServer.ProcessAcceptEvents` | source/ftp.c:699-754 | attempts are dealt with in order, until nobody is there, accepting fails or the table is full; the log gains exactly their events, the count their number; clients keep their slots, and the network is down exactly when accepting failed |
| `Server.FtpServer.ProcessClient` | source/ftp.c:861-869 | a client with a callback has a data event, any other a control event, for what is in store for it, and nobody else is touched; it keeps its slot unless it left |
| `Server.FtpServer.VisitAll` | source/ftp.c:861-870 | every slot's client, newcomers included, has its turn once, in the order of the slots |
| `Server.FtpServer.ProcessFtpEvents` | source/ftp.c:858-872 | new clients first, then every client has its turn once, each for what is in store for it; a client of before keeps its slot unless it left in its turn; everything stays in order |
| `Server.FtpServer.CleanupFtp` | source/ftp.c:688-697 | everybody is told 421 and hung up on, in the order of the slots; then no descriptor is open, no handle but lost ones, and every connection is gone |
| `Server.FtpServer.OpenIsOwned` | source/ftp.c:56-77 | between events the open descriptors are the disjoint union of the clients' own |
| `Server.FtpServer.HandlesAreOwned` | source/ftp.c:71-73 | between events the open handles are the disjoint union of the clients' own and the lost ones |
| `Server.FtpServer.ClientsAreInShape` | source/ftp.c:657-670 | between events there is a callback exactly with a data socket; without one everything is clear; a waiting passive transfer borrows the passive socket and a connected one does not; num_clients is right |
| `Server.Serve` | source/ftpii.c:119-137 | whole runs, with the network up or down: every round until the reset flag begins with its connection attempts, every event is allowed, and in the end all connections are gone, no descriptor is open, and as many handles are open as setups that failed and were excused to the client, so none if and only if there was no such setup |
| `Server.LoseHandle` | source/ftp.c:365-388 | a run on a concrete server: a client connects, logs in and asks for a file that opens, in active mode, no socket binds, and the client goes on without a transfer while the file stays open |
| `Server.FreeSlot` | source/ftp.c:740-746 | a table that counts fewer clients than slots has a free slot |

## Left out

- Allocation failures: malloc always succeeds.
- Network and DVD drivers, FAT, NTFS, ISO9660 and the other file system libraries, video, pads, cache flushes, sleeping and busy waiting: their answers are arguments.
- `strerror` texts, the texts of replies beside their codes, listing lines and timestamps, the representation type, the client's address, and the passive port numbers, which wrap around.
- MAXPATHLEN is a parameter. The working directory is a string of any length: vrt_chdir appends a slash after copying, and whether that byte fits is not modelled.
- SITE LOAD handing control over to a loaded program; reset, loader, preloader, pad and main files, which are wiring and short loops.
- Framing.ChunkingIrrelevant: is about two runs with handlers that answer alike; `Cuts` has the handlers as a function and needs no such condition. Both leave out runs in which a transfer makes the scan stop early, because lines behind it wait for more bytes to arrive.
- Framing.CuttingMattersWithNul: shows one shape of stream; the exact condition for all streams is `Cuts.CuttingWithNul`.
- Server.FtpServer.ProcessControlEvents: the peer has finitely many bytes in store in one event, so that the loop ends; likewise only finitely many new connections wait in `Server.FtpServer.ProcessAcceptEvents`.
- Server.FtpServer.ProcessFtpEvents: what a round does to a client that came in the same round is said of `Server.FtpServer.VisitAll` only.
- Server.FtpServer.CallBack: what a listing sends is not modelled, only that it takes one step; and the file under a download does not change while it goes on.
- Server.FtpServer.FtpPort: the address that the command stores in the client is not modelled, because nothing in the model connects to it.
- Mounts.Devices.MountFat: fatMount and ntfsMount are one kind of event, a call of the device's library; so are the two unmount calls.
- Net.RecvToFile: sockets have finitely much in store before they answer that nothing is there yet; how the bytes are cut into reads is not observable, and not recorded.
- Reading REST's offset and PORT's address with sscanf: whether and what they read is a parameter of the handler.
- Clock additions do not overflow, and errno values are distinct numbers whose actual values do not matter.
- Dol.LoadDolImage: sections and argument block keep off the image; what happens to images that overwrite themselves is not modelled.
- The mount menu can close with its choice still set when the DVD is refused; that leftover is kept in `Mounts` and no claim is made about it.
