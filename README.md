# deluge-auto-remove, modelled in Dafny

A model of the retention engine of `deluge-auto-remove`. This is a
one-pass maintenance script for a Deluge torrent daemon. It connects to
the daemon and fetches the status of every torrent. It then deletes
(with data) each torrent that has been seeding for too many days or whose
ratio is past its threshold.

The model has four modules, one per part of `main.py`:

- `Values` (`values.dfy`): the value tree the RPC transport returns, and
  `convert`, the recursive normaliser that decodes byte strings as ASCII
  inside dictionaries (keys and values) and tuples. Its contract says when
  it fails (a non-ASCII byte where it looks) and the shape of its output
  (no byte string outside lists, distinct dictionary keys). Lemmas tie each
  converted element, key and value to the converted input, prove that
  encoding the strings back and converting again is the identity, and that
  `convert` is the identity on its own output, and so idempotent. It also
  models `dict(items)`: a later item with a key already seen overwrites the
  value in place.
- `Settings` (`settings.dfy`): the parsed command line, and the check
  that host, port, user and password are each set and non-empty. It
  returns the first one that is not, in that order.
- `Retention` (`retention.dfy`): the per-torrent rule chain as a pure
  function `Decide`. It returns a decision with a reason tag. There is an
  eligibility gate, then the seeding-days rule (floor division, strict
  `>`), then the ratio rule (a fixed threshold guarded by `> -1`, or
  `auto`, which needs `stop_at_ratio` to be exactly `True`).
- `Engine` (`engine.dfy`): the daemon client as a class over an oracle,
  with a ghost log of the handshake and the RPCs made. It holds `remove`, the loop over the
  snapshot, and the whole run from the settings check to the exit status.
  The loop is proved against a left fold, `Processed`. Lemmas about that
  fold prove three things. A dry run makes no removal RPC. Otherwise the
  removal RPCs are the condemned torrents in snapshot order, up to and
  including the first reply that is not `True`. Each torrent gets at most
  one removal.

Exit statuses: 0 when the loop goes through, 2 for each `cleanup_and_die`.
A reply (the status snapshot, or a removal reply) holding a byte string
that `convert` decodes and that is not ASCII raises an uncaught
`UnicodeDecodeError`, which Python turns into exit status 1. The model
keeps that as exit status 1. Byte strings inside tuples are the exception
listed under "Left out".

Three points where the code is easy to misread; the model follows the
code:
- `is_finished` and `stop_at_ratio` are tested with `is True`. A value
  that is merely truthy, such as `1`, does not pass. Both fields are
  therefore kept as `Value` and compared with `Bool(true)`.
- The port is only required to be a non-empty string at main.py:57-62,
  like the other three settings; `int(port)` comes later, at main.py:94.
- `convert` returns lists unchanged. A byte string inside a list survives
  conversion (`Values.ListKeepsBytes`). "No bytes anywhere" holds for
  values that hold no list (`Values.NormalHasNoBytes`).

## Model

| member | source | states |
|---|---|---|
| `Values.DecodeAscii` | main.py:68-69 | succeeds exactly when every byte is below 128, with one character per byte of the same code; otherwise fails naming the first byte of the input that is 128 or more |
| `Values.DecodeEncode` | main.py:68-69 | decoding the ASCII encoding of ASCII text gives the text back |
| `Values.EncodeDecode` | main.py:68-69 | encoding the decoding of ASCII bytes gives the bytes back |
| `Values.KeyIndex` | main.py:71 | the position of the first item with a key, or -1 exactly when it is absent |
| `Values.Put` | main.py:71 | storing a key keeps the keys distinct; a new key is appended with its value; an existing key keeps its position and takes the new value, and every other item keeps its position; no other item appears |
| `Values.PutKeyIndex` | main.py:71 | after storing `k`, a key present before keeps its position, `k` if new is at the end, and no other key appears |
| `Values.LastKeyIndex` | main.py:71 | the position of the last item with a given key, or -1 exactly when there is none |
| `Values.FromPairs` | main.py:71 | `dict(items)` has distinct keys and holds only items taken from the input |
| `Values.FromPairsKeys` | main.py:71 | `dict(items)` has exactly the keys that occur among the items |
| `Values.FromPairsOrder` | main.py:71 | the keys of `dict(items)` are in the order of their first occurrence among the items |
| `Values.FromPairsValue` | main.py:71 | in `dict(items)` a key maps to the value of the last item with that key |
| `Values.FromPairsOfDistinct` | main.py:71 | `dict(items)` of items with distinct keys is those items unchanged |
| `Values.Convert` | main.py:64-74 | succeeds exactly when no non-ASCII byte string is reachable through dicts and tuples; the result has no byte string there (keys included) and distinct dict keys; non-bytes/dict/tuple values come back unchanged; bytes become their ASCII decoding; a tuple stays a tuple of the same length and a dict a dict; the result is `True` only for input `True` |
| `Values.ConvertAll` | main.py:72-73 | the elements of a tuple convert exactly when each converts; the result holds, position by position, each element converted |
| `Values.ConvertItems` | main.py:70-71 | the items of a dict convert exactly when every key and value converts; one normalised item per input item |
| `Values.ConvertItemsPointwise` | main.py:70-71 | item by item, the converted items are the input's key and value each converted |
| `Values.ConvertTupleElements` | main.py:72-73 | a converted tuple holds, position by position, its elements converted |
| `Values.ConvertDictItems` | main.py:70-71 | a converted dict holds only pairs of a converted key and converted value of one input item |
| `Values.ConvertDictKey` | main.py:70-71 | every input key, converted, is a key of the converted dict; it maps to the converted value of the last input item whose key converts to it |
| `Values.ConvertDictOrder` | main.py:70-71 | the keys of a converted dict keep the order in which they first occur, converted, among the input's keys |
| `Values.EncodeStrings` | main.py:68-69 | the inverse direction: an ASCII string becomes the bytes that decode to it; values that are not text, tuples or dicts are untouched |
| `Values.ConvertEncodeStrings` | main.py:64-74 | for any value in `convert`'s output shape, encoding its ASCII strings as bytes and converting gives the value back |
| `Values.ConvertFixesNormal` | main.py:64-74 | `convert` returns any value already in its output shape unchanged |
| `Values.ConvertIdempotent` | main.py:64-74 | converting the output of `convert` again changes nothing |
| `Values.NormalHasNoBytes` | main.py:64-74 | a converted value that holds no list contains no byte string anywhere, dict keys included |
| `Values.ListKeepsBytes` | main.py:74 | a list holding bytes is returned as it is, bytes included |
| `Settings.FirstMissing` | main.py:57-62 | returns nothing exactly when host, port, user and password are all set and non-empty (`Truthy` of each `Setting`); otherwise returns the first of them, in that order, that is unset or empty |
| `Retention.SeedingDays` | main.py:114 | `seeding_time // 86400` is the whole number of days d with d*86400 <= seconds < (d+1)*86400 |
| `Retention.Decide` | main.py:105-142 | removes exactly the eligible torrents whose seeding days exceed the limit or whose ratio rule fires; the seeding rule takes precedence; the ratio reasons occur only below the seeding limit and in their own mode; the keep-with-log case is auto mode, ratio above stop ratio, stop_at_ratio not `True` |
| `Retention.IneligibleKept` | main.py:106-111 | a torrent neither Seeding nor Paused, or with the keep label, or whose `is_finished` is not exactly `True`, is kept |
| `Retention.SeedingBoundary` | main.py:114-115 | for an eligible torrent the seeding rule fires exactly when the seeding time is at least (days+1)*86400 seconds |
| `Retention.FixedThresholdDisabled` | main.py:123-124 | a fixed threshold of -1 or less never removes by ratio |
| `Retention.AutoNeedsStopAtRatio` | main.py:130-142 | in auto mode a torrent whose `stop_at_ratio` is not exactly `True` is removed only by the seeding rule |
| `Retention.SeedingCases` | main.py:114-122 | 30 days and one second against 25 days is removed; exactly 25 days is kept |
| `Retention.AutoRatioCases` | main.py:130-142 | ratio 3.0 over stop ratio 2.0 is removed with stop_at_ratio on and kept with the logged reason when off |
| `Retention.FixedRatioAndLabelCases` | main.py:108-129 | threshold 1.5 removes ratio 2.0; threshold -1 keeps it; the keep label keeps a torrent every rule would remove |
| `Engine.Client.Connect` | main.py:96-97 | logs one handshake; the client is connected exactly when the daemon is reachable |
| `Engine.Client.CallGetTorrentsStatus` | main.py:103 | returns the daemon's raw status reply and logs one status RPC |
| `Engine.Client.CallRemoveTorrent` | main.py:84 | returns the daemon's reply for that torrent and logs one removal RPC with its arguments |
| `Engine.ReplyStatus` | main.py:84-86 | the run goes on exactly when the reply is `True`; a reply that fails to decode stops it with status 1; any other reply stops it with exit code 2 |
| `Engine.Remove` | main.py:76-87 | dry run: no RPC and the run goes on; otherwise exactly one `core.remove_torrent(id, True)` RPC and the status its reply gives |
| `Engine.DoomedMembership` | main.py:105-112 | `remove` is called for a torrent id (its id is condemned) exactly when some snapshot entry with that id is judged removable |
| `Engine.DoomedAppend` | main.py:105 | decisions are independent per torrent: the condemned ids of a concatenation are those of each part in order |
| `Engine.DoomedDistinct` | main.py:105 | with distinct snapshot ids, no id is condemned twice |
| `Engine.DryRunRemovesNothing` | main.py:80-81 | in dry-run mode the run makes no removal RPC and never stops early |
| `Engine.StoppedStaysStopped` | main.py:50-55 | once a reply has stopped the run, no later torrent changes the outcome |
| `Engine.RunOutcome` | main.py:105-142 | outside dry-run mode the removal RPCs are a prefix of the condemned ids; all of them when the run goes through; when it stops, the last RPC's reply gives the stop status and every earlier reply was `True` |
| `Engine.CompletesIffAllRepliesTrue` | main.py:84-86 | the run goes through exactly when the daemon answers `True` for every condemned torrent |
| `Engine.RemovedExactlyTheDoomed` | main.py:103-112 | when the run goes through outside dry-run mode, an id gets a removal RPC exactly when some snapshot entry with that id is judged removable |
| `Engine.AtMostOneRemovePerTorrent` | main.py:121-136 | with distinct snapshot ids, no torrent receives two removal RPCs |
| `Engine.RemoveExpired` | main.py:105-142 | the loop leaves the RPC log extended by exactly the removal RPCs of the fold `Processed` and returns its status |
| `Engine.Execute` | main.py:57-105 | a missing setting exits 2 before any handshake or RPC; a failed handshake exits 2 before any RPC; a status reply that does not decode exits 1 after the one status RPC and before any removal; otherwise one status RPC, then the removal RPCs of the fold, and exit 0 or the stop status |

## Left out

- Argument parsing, environment-variable defaults and the help text
  (main.py:10-40, 61). The run takes an already parsed `Args` record.
- Logging: the log level, every message, and the `time.ctime` and
  `timedelta` formatting. None of it affects a decision.
- The `ImportError` path for a missing client library (main.py:89-92),
  which exits 2. It is a foreign library.
- Constructing the client, including `int(port)`, and the inside of the
  connect handshake (main.py:94-96). The handshake is one log entry and its
  result is the oracle field `reachable`. A `ValueError` on a non-numeric
  port is not modelled.
- Reading fields from the decoded status reply (main.py:106-114). The
  status reply is decoded with `Convert` (exit 1 on failure), but the
  typed records the loop reads are the separate oracle field `torrents`,
  in the dictionary's iteration order; that they are the decoded reply is
  not stated. A missing field (`KeyError`) or a field of another type is
  not modelled.
- Exceptions raised by `CLIENT.call` itself (main.py:84, 103), for example
  a lost connection or an error returned by the daemon, end the process
  with exit status 1 in the source. The oracle always answers, so this
  path is not modelled.
- Float semantics: ratios are reals. NaN, infinities and parsing `--ratio`
  with `float()` (and its failure on a malformed string) are not modelled.
- Values.Convert: a tuple is converted eagerly and stays a tuple. The
  source returns a lazy `map` iterator that nothing ever consumes, so a
  non-ASCII byte string inside a tuple raises nothing there. Consequences:
  a removal reply that is a tuple, such as `(b'\xc8',)`, exits 2 in the
  source but 1 in the model; a status reply with such a tuple inside a
  torrent's fields goes on in the source but exits 1 in the model. A
  second `convert` of the iterator would return it unchanged.
- Values.Convert: dictionary keys are compared structurally. Python's
  equality and hashing (`1 == True == 1.0`, unhashable keys) are not
  modelled.
- Values.DecodeError: names the first offending byte but not its position.
- The daemon's own state (whether a torrent is really deleted) is not
  modelled. The model records only the RPCs sent to it.
- Engine.Execute: the snapshot is a value and never changes during the
  run.
