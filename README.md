# kitty utilities, modelled in Dafny

A model of the pure and decision-making core of kitty's `kitty/utils.py`:

- the `--listen-on` endpoint syntax (`parse_address_spec`);
- the 24-bit colour packing (`color_as_int`, `color_from_int`);
- the radix-64 integer encoding (`base64_encode`);
- the `;`-separated palette lists of the colour escape (`parse_color_set`);
- the window-title cleaner (`sanitize_title`);
- the natural sort (`natsort_ints`);
- the single-instance check (`unix_socket_paths`, `single_instance_unix`,
  `SingleInstance.__call__`).

The answers the kernel gives to the single-instance check's system calls are
inputs to the model, so only the decisions one process takes on them are
modelled.

Modules, one per file:

| file | module | what it holds |
|---|---|---|
| wrappers.dfy | Wrappers | `Option` and `Result` |
| strings.dfy | Strings | `split(sep, 1)`, `rsplit(sep, 1)`, `split(sep)`, `sep.join`, POSIX `os.path.join` |
| radix.dfy | Radix | positional digits, shared by decimal text and radix 64 |
| decimal.dfy | Decimal | `str(n)` and `int(s)` on ASCII digit strings |
| address_spec.dfy | AddressSpec | `parse_address_spec` |
| colors.dfy | Colors | `color_as_int`, `color_from_int`, `parse_color_set` |
| base64.dfy | Base64 | `base64_encode` |
| titles.dfy | Titles | `sanitize_title` |
| natsort.dfy | NatSort | `natsort_ints`: the key, the key order, a stable sort |
| single_instance.dfy | InstanceLock | names and paths, the decisions as functions, the `SingleInstance` class |

Where the source changes state, the model is imperative:

- `base64_encode` is a method with the source's `while True` loop.
- `parse_color_set` is a method whose loop collects what the generator yields.
- The singleton is a class, `InstanceLock.SingleInstance`. Its fields are the
  socket it keeps alive and the list of handlers registered with `atexit`.
  Each of its methods is proved to leave exactly the state that a decision
  function (`CallAttempt`, `UnixAttempt`, ...) prescribes. The lemmas about
  those functions state the decision rules.

## Model

| member | source | states |
|---|---|---|
| AddressSpec.ParseAddressSpec | kitty/utils.py:357-374 | a spec without `:` raises; every endpoint the parse returns is well formed (a Unix path that is its own cleanup path, an abstract `\0name` with a non-empty name and no cleanup path, or a host and port without one) |
| AddressSpec.UnixEndpoint | kitty/utils.py:361-367 | the `unix` branch always yields a well-formed Unix endpoint |
| AddressSpec.InetEndpoint | kitty/utils.py:368-370 | the `tcp`/`tcp6` branch raises for a missing port separator exactly when the rest has no `:`, and otherwise yields a well-formed endpoint of the chosen family |
| AddressSpec.ProtocolSplit | kitty/utils.py:359 | the protocol is everything before the first `:`, whatever the rest holds |
| AddressSpec.PortSplit | kitty/utils.py:370 | the port is everything after the last `:`, so the host keeps all its colons |
| AddressSpec.Dispatch | kitty/utils.py:359-373 | `unix`, `tcp`, `tcp6` select their branch on the rest; any other protocol raises, naming the whole spec |
| AddressSpec.ParseUnix | kitty/utils.py:361-367 | `unix:@x` with non-empty `x` gives `\0x` and no cleanup path; any other rest, a bare `@` included, is both address and cleanup path |
| AddressSpec.ParseInet | kitty/utils.py:368-371 | host before the last `:`, port after it; a port that is not a digit string raises |
| AddressSpec.ParseInetWithoutHost | kitty/utils.py:370 | `tcp:`/`tcp6:` with a rest without `:` raises |
| AddressSpec.ParseUnknownProtocol | kitty/utils.py:372-373 | any other protocol raises |
| AddressSpec.ParseFormat | kitty/utils.py:357-374 | round trip: parsing the formatted text of a well-formed endpoint gives the endpoint back |
| AddressSpec.FormatParseUnix | kitty/utils.py:361-367 | round trip: every `unix:` spec is reproduced by formatting what it parses to |
| AddressSpec.FormatUnixEndpoint | kitty/utils.py:361-367 | formatting the result of the `unix` branch gives back `unix:` and the rest |
| Colors.ColorAsInt | kitty/utils.py:58-59 | the packed colour fits in 24 bits |
| Colors.ColorFromInt | kitty/utils.py:62-63 | `>>` and `& 0xFF` as floor division and remainder by powers of two (definition; `ColorRoundTrip` and `ColorFromIntLow24` state its properties) |
| Colors.ColorRoundTrip | kitty/utils.py:58-63 | `color_from_int(color_as_int(c)) == c` for every colour of 8-bit components |
| Colors.ColorFromIntLow24 | kitty/utils.py:62-63 | unpacking keeps exactly the low 24 bits of any integer, negative ones included |
| Colors.LowBytes | kitty/utils.py:62-63 | each extracted byte depends only on the low 24 bits |
| Colors.PairEntry | kitty/utils.py:72-82 | what one pair yields, as a value: the reference the loop body `TryPair` is proved against |
| Colors.PairsEntries | kitty/utils.py:71-82 | what the pairs yield in order (reference for `YieldPairs`; `PairsEntriesMembership` states its contents) |
| Colors.ColorSet | kitty/utils.py:66-82 | the whole result as a list (reference for `ParseColorSet`; `ColorSetMembership` and `ColorSetRoundTrip` state its contents) |
| Colors.ParseColorSet | kitty/utils.py:66-82 | an odd number of parts yields nothing; otherwise the result is what the pairs yield, in order |
| Colors.YieldPairs | kitty/utils.py:71-82 | the loop collects, pair by pair and in order, exactly what each pair yields |
| Colors.TryPair | kitty/utils.py:72-82 | the loop body, step by step, yields exactly `PairEntry`: at most one entry, nothing on a bad index, an index above 255 or an unreadable colour, `None` for `?`, else the packed colour |
| Colors.PairsEntriesMembership | kitty/utils.py:71-82 | an entry is yielded if and only if some pair at an even position yields it |
| Colors.ColorSetMembership | kitty/utils.py:66-82 | membership in the result: even part count and some pair yielding the entry, both directions |
| Colors.ColorSetRoundTrip | kitty/utils.py:66-82 | requests written as `index;spec;...` parse back to one entry per request, in order |
| Colors.RequestsPartsEntries | kitty/utils.py:71-82 | the parts of a request list yield the expected entries |
| Colors.RequestEntry | kitty/utils.py:73-80 | the two parts of one request yield that request's entry |
| Colors.NoSeparatorInParts | kitty/utils.py:67 | the written parts hold no `;`, so the split recovers them |
| Base64.Base64Encode | kitty/utils.py:148-159 | the loop returns the radix-64 rendering of its input, most significant digit first |
| Base64.Encoding | kitty/utils.py:148-159 | the radix-64 digits of the input rendered in the alphabet (reference for `Base64Encode`; `EncodingShape`, `DecodeEncoding` and `EncodingOfDecode` state its properties) |
| Base64.EncodingShape | kitty/utils.py:154-159 | the result is non-empty, over the 64-character alphabet, `A` exactly for 0 and without a leading `A` otherwise |
| Base64.DecodeEncoding | kitty/utils.py:148-159 | decoding the result in radix 64 gives the input back |
| Base64.EncodingOfDecode | kitty/utils.py:148-159 | every alphabet string without a leading `A` (or `A` itself) is the encoding of what it decodes to |
| Base64.AlphabetTable | kitty/utils.py:150-151 | the default alphabet is `A-Z a-z 0-9 + /`, 64 characters in that order |
| Base64.DigitOf | kitty/utils.py:150-151 | every alphabet character stands for a digit below 64 whose character it is |
| Titles.IsStripped | kitty/utils.py:55 | the class `[\0-\x19\x80-\x9f]` the first substitution deletes (definition) |
| Titles.IsSpace | kitty/utils.py:55 | Python's `\s` on `str`, the characters `str.isspace` accepts (definition) |
| Titles.StripControls | kitty/utils.py:55 | no character of `[\0-\x19\x80-\x9f]` is left, every other character of the input still occurs, and the text does not grow |
| Titles.StripChar | kitty/utils.py:55 | one character is deleted exactly when it is in the class, and kept otherwise |
| Titles.StripAppend | kitty/utils.py:55 | deleting from a concatenation deletes from each part and keeps the rest in order: with `StripChar`, exactly the class's characters go, each other one stays in place |
| Titles.SkipSpaces | kitty/utils.py:55 | a run of whitespace is consumed whole |
| Titles.CollapseSpaces | kitty/utils.py:55 | non-empty text stays non-empty and keeps a leading non-space character |
| Titles.CollapseNoSpace | kitty/utils.py:55 | text without whitespace is left as it is |
| Titles.CollapseRun | kitty/utils.py:55 | a maximal run of whitespace between two pieces of text (or at either end) becomes exactly one space in its place, and each side is collapsed on its own: `"a  b"` gives `"a b"` |
| Titles.CollapseShape | kitty/utils.py:55 | after collapsing, the only whitespace is single spaces, never two in a row |
| Titles.CollapseChars | kitty/utils.py:55 | collapsing introduces no character other than a space |
| Titles.SanitizeTitle | kitty/utils.py:54-55 | deletion first, then collapse (definition; its properties are the lemmas of this section) |
| Titles.SanitizeTitleIdempotent | kitty/utils.py:54-55 | the title holds no control character, its whitespace is collapsed, and sanitizing it again changes nothing |
| Titles.SanitizeTitleKeepsVisible | kitty/utils.py:54-55 | the non-whitespace characters that survive the control-character deletion are all kept, in order |
| NatSort.Pieces | kitty/utils.py:422 | `re.split(r'(\d+)', s)` has an odd number of pieces |
| NatSort.PiecesConcat | kitty/utils.py:422 | the pieces joined give the string back |
| NatSort.PiecesShape | kitty/utils.py:422 | the pieces alternate digit-free text and maximal, non-empty digit runs |
| NatSort.Convert | kitty/utils.py:418-419 | a digit piece becomes its integer, any other piece stays text (definition) |
| NatSort.Key | kitty/utils.py:421-422 | the key is the converted pieces (definition; `KeyShape` and `KeyCons` state its form) |
| NatSort.KeyShape | kitty/utils.py:418-422 | the key alternates text and integers, starting and ending with text |
| NatSort.KeyCons | kitty/utils.py:418-422 | text, a digit run and a rest not starting with a digit give the key text, integer, then the key of the rest |
| NatSort.PartLt | kitty/utils.py:424 | Python's `<` on key parts: integers by value, text by code points (definition; `PartOrder` and `KeyOrder` state its properties) |
| NatSort.KeyLt | kitty/utils.py:424 | Python's tuple `<` on keys, lexicographic (definition) |
| NatSort.KeyOrder | kitty/utils.py:424 | the tuple order on keys is irreflexive, transitive and total |
| NatSort.NumbersCompareAsIntegers | kitty/utils.py:416-424 | after a common text, a smaller number sorts first, whatever follows: `file2` before `file10` |
| NatSort.KeyLessOrder | kitty/utils.py:424 | the key order is a strict weak order on strings; two strings tie exactly when their keys are equal |
| NatSort.SortBy | kitty/utils.py:424 | a stable sort by a strict weak order (definition; `SortSorted` and `SortStable` state its properties) |
| NatSort.SortSorted | kitty/utils.py:424 | the sort by a strict weak order leaves no element before a smaller one |
| NatSort.SortStable | kitty/utils.py:424 | the sort is stable: elements that tie keep their input order |
| NatSort.NatSortInts | kitty/utils.py:416-424 | the result is a permutation of the input, sorted by the natural key |
| NatSort.NatSortStable | kitty/utils.py:416-424 | strings with equal keys keep their input order, as with `sorted` |
| InstanceLock.CoordinationName | kitty/utils.py:330-332 | the name starts with `<appname>-ipc-` and is longer than it |
| InstanceLock.CoordinationNameDetermines | kitty/utils.py:330-332 | the name determines the user id and the group (an empty group id counts as none) |
| InstanceLock.GroupSuffix | kitty/utils.py:331-332 | the group suffix is empty or starts with `-` |
| InstanceLock.LockFileName | kitty/utils.py:289 | a leading `.` exactly when the directory is the home directory |
| InstanceLock.Candidates | kitty/utils.py:282-285 | exactly two candidate directories, in order of preference (which ones is the table of the cited lines itself) |
| InstanceLock.FileIn | kitty/utils.py:289-290 | the file for a name in one directory (definition) |
| InstanceLock.PathsIn | kitty/utils.py:287-290 | at most one file per directory, in order |
| InstanceLock.PathsInEmpty | kitty/utils.py:287-290 | no file exactly when no directory is accessible |
| InstanceLock.PathsInMembers | kitty/utils.py:287-290 | a path is yielded exactly when it is the file of an accessible directory |
| InstanceLock.PathsInFirst | kitty/utils.py:287-290 | the first file is that of the first accessible directory |
| InstanceLock.UnixSocketPaths | kitty/utils.py:280-290 | at most two paths |
| InstanceLock.UnixSocketPathsAccessible | kitty/utils.py:280-290 | one file per accessible candidate and nothing else; none exactly when neither candidate is accessible; the file of the preferred accessible candidate first |
| InstanceLock.SocketPath | kitty/utils.py:296 | `rpartition('.')[0] + '.sock'` (definition) |
| InstanceLock.SocketPathReplacesExtension | kitty/utils.py:296 | the socket path replaces only the text after the last `.` by `sock` |
| InstanceLock.SocketNextToLock | kitty/utils.py:280-296 | each lock file's socket is the `.sock` file of the same name in the same directory |
| InstanceLock.Connecting | kitty/utils.py:303-306 | connect: the client socket is kept on success, the error raised otherwise (definition) |
| InstanceLock.Listening | kitty/utils.py:317-318 | keep the listener and register its cleanup (definition) |
| InstanceLock.Binding | kitty/utils.py:308-318 | bind, with one unlink and rebind on EADDRINUSE/EEXIST (definition; `UnixStaleSocket`, `UnixBound` and `UnixOtherError` state the cases) |
| InstanceLock.PathAttempt | kitty/utils.py:295-321 | one turn of the candidate loop: open, lock, then connect or bind (definition; the `Unix...` lemmas state the cases) |
| InstanceLock.UnixAttempt | kitty/utils.py:293-321 | `single_instance_unix`: None without a path, else the first path's turn (definition) |
| InstanceLock.NamedAttempt | kitty/utils.py:334-351 | the abstract bind, then fallback, connect, raise or listen (definition; the `Abstract...` lemmas state the cases) |
| InstanceLock.CallAttempt | kitty/utils.py:328-351 | `SingleInstance.__call__`: build the name, then `NamedAttempt` (definition) |
| InstanceLock.CallAttemptConsistent | kitty/utils.py:328-351 | a socket is kept exactly when the call returns True or False, and a cleanup is registered, for that listening socket, exactly when it returns True |
| InstanceLock.UnixAttemptConsistent | kitty/utils.py:293-321 | the same for the filesystem fallback |
| InstanceLock.AbstractUnavailable | kitty/utils.py:337-341 | ENOENT on the abstract bind hands over to the filesystem fallback |
| InstanceLock.AbstractInUse | kitty/utils.py:342-345 | EADDRINUSE on the abstract bind: connect, register nothing, return False exactly when the connect succeeds, and raise the connect's error otherwise, keeping nothing |
| InstanceLock.AbstractBound | kitty/utils.py:337-351 | a free abstract address: return True and register a cleanup without a path |
| InstanceLock.AbstractOtherError | kitty/utils.py:339-346 | any other error of the abstract bind is raised and nothing is kept |
| InstanceLock.UnixNoCandidate | kitty/utils.py:280-321 | the fallback returns None exactly when no candidate directory is accessible, and then issues no call |
| InstanceLock.UnixFirstCandidateOnly | kitty/utils.py:280-321 | the path tried is the file of the preferred accessible candidate, and every call touches it or its socket: no later candidate is tried |
| InstanceLock.UnixLockDenied | kitty/utils.py:297-306 | lock denied: connect to the socket and never bind; False exactly when the connect succeeds, the connect's error raised otherwise |
| InstanceLock.UnixStaleSocket | kitty/utils.py:309-316 | a stale socket is unlinked exactly once and the bind retried exactly once; a failing unlink or rebind is raised, keeping nothing |
| InstanceLock.UnixBound | kitty/utils.py:308-321 | lock and bind succeed: return True with a cleanup that unlinks the socket file |
| InstanceLock.UnixOtherError | kitty/utils.py:297-316 | a failing `os.open`, a lock error other than EAGAIN/EACCES, or a bind error other than EADDRINUSE/EEXIST is raised and nothing is kept |
| InstanceLock.SingleInstance.constructor | kitty/utils.py:324-326 | no socket kept, no handler registered |
| InstanceLock.SingleInstance.Call | kitty/utils.py:328-351 | returns the verdict `CallAttempt` prescribes and leaves the socket and handler list it prescribes |
| InstanceLock.SingleInstance.CallNamed | kitty/utils.py:334-351 | the same, once the name is built |
| InstanceLock.SingleInstance.BindFailed | kitty/utils.py:339-346 | the `except` clause of the abstract bind: fallback, connect or raise |
| InstanceLock.SingleInstance.SingleInstanceUnix | kitty/utils.py:293-321 | returns the verdict `UnixAttempt` prescribes and leaves the state it prescribes |
| InstanceLock.SingleInstance.TryPath | kitty/utils.py:296-321 | one turn of the candidate loop: lock, then connect or bind |
| InstanceLock.SingleInstance.BindAt | kitty/utils.py:308-318 | the bind of the socket file with its one unlink-and-retry, then listen and register |
| InstanceLock.SingleInstance.ConnectTo | kitty/utils.py:303-306 | connect, keep the client socket on success, raise otherwise |
| InstanceLock.SingleInstance.ListenAt | kitty/utils.py:317-318 | keep the listening socket and register its cleanup |
| Strings.SplitOnce | kitty/utils.py:359 | `split(':', 1)` fails exactly when there is no separator; otherwise the head holds none and the parts rebuild the string |
| Strings.RSplitOnce | kitty/utils.py:370 | `rsplit(':', 1)` fails exactly when there is no separator; otherwise the tail holds none and the parts rebuild the string |
| Strings.Split | kitty/utils.py:67 | `split(';')` gives at least one part and no part holds the separator |
| Strings.JoinSplit | kitty/utils.py:67 | joining what `split(';')` returns gives the string back |
| Strings.SplitJoin | kitty/utils.py:67 | splitting undoes joining parts that hold no separator |
| Strings.PathJoin | kitty/utils.py:290 | POSIX `os.path.join`: an absolute name replaces the directory, otherwise one `/` separates them unless the directory is empty or ends in one; the result ends with the name |
| Decimal.ParseNat | kitty/utils.py:370-371 | `int(s)` succeeds exactly on non-empty digit strings |
| Decimal.Show | kitty/utils.py:330 | `str(n)`: non-empty digits, no leading zero except for 0 |
| Decimal.ParseShow | kitty/utils.py:330 | `int(str(n)) == n` |
| Decimal.ShowParse | kitty/utils.py:370 | a digit string without a leading zero is how its value prints |

## Left out

- The real system calls (`os.open`, `fcntl.lockf`, `socket.bind`, `connect`,
  `os.unlink`) are inputs: the `Os` datatype gives each call's outcome. So
  the mutual exclusion between processes, which rests on the kernel, is not
  modelled. Neither is whether another process sees a consistent lock and
  socket.
- `socket.socket()`, `listen()` and `set_inheritable(False)` are taken to
  succeed. An error they raise is not modelled.
- The lock file descriptor is never closed by the source. The model does not
  track file descriptors.
- `remove_socket_file` itself is not run. Its registration with `atexit` is
  recorded as a `Cleanup` carrying the socket and the optional path.
- The record of issued system calls (`issued`) is ghost state of the model,
  not a field of the source's object. The source stores the socket on the
  module-level `single_instance` object. The model stores it on the receiver,
  which is that object whenever the source calls it.
- InstanceLock.UnixSocketPaths: `tempfile.gettempdir()`,
  `os.path.expanduser('~')`, `user_cache_dir()` and `os.access` are
  parameters (`Platform`), not computed.
- AddressSpec.ParseAddressSpec: `int(port)` is modelled on non-empty ASCII
  digit strings only. Python also accepts a sign, surrounding whitespace,
  `_` separators and non-ASCII decimal digits. The port is not range-checked
  here, and neither is it in the source.
- Colors.ParseColorSet: `int(c)` is restricted in the same way, so signed
  indices are not modelled. For a negative index this changes nothing, since
  the source's range check skips it too. But Python's `int("-0")` and
  `int("+5")` give valid indices that the source yields and the model skips,
  and the same holds for indices with surrounding blanks or `_` separators. `to_color` belongs to
  `kitty/rgb.py`, which is not part of this model. It is a parameter
  returning an optional colour, and `None` stands for every way it can fail.
- NatSort.Key: `\d` and `str.isdigit` are taken to be the ASCII digits.
  Python's `\d` also matches other Unicode decimal digits, and `isdigit`
  also accepts superscripts, on which `int` raises.
- NatSort.PartLt: keys always pair text with text and integers with
  integers (`NatSort.KeyShape`). So the mixed comparison, on which Python
  raises `TypeError`, is never reached. The model orders text before
  integers only to make the order total.
- `NatSort.SortBy` is an insertion sort, not Timsort. The result is the same,
  because a stable sort's result is unique.
- Base64.Base64Encode: the `chars` parameter is fixed at its default. The
  integer is a `nat`: on a negative integer the source never leaves its loop,
  because `divmod` floors.
- Titles.IsSpace: `\s` is Python's set of Unicode whitespace (what
  `str.isspace` accepts), listed explicitly.
- The source's `single_instance_unix` raises on any unexpected error inside
  its candidate loop, including a failing `os.open`. It never moves on to the
  next candidate. The model follows the code.
- The other functions of `kitty/utils.py` are not part of this model:
  - `fit_image` and `adjust_line_height` work in floating point.
  - The terminal I/O (`TTYIO`, `write_all`, `ScreenSizeGetter`), process
    spawning (`open_cmd`, `open_url`, `detach`), shell environment reading,
    editor lookup and startup notification are I/O and foreign calls.
