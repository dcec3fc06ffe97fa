# dht-py in Dafny

This project models the two sequential cores of a small Python distributed
hash table and proves properties about them.

- **The consistent-hash ring** (`ConsistentHash` in `consistant_hash.py`).
  A ring maps integer positions to node names and keeps a set of member
  nodes. Each member owns `replicas` virtual positions, the hashes of
  `node + ":" + i`. `get_node` hashes a key and returns the owner of the
  first position at or after that hash. If no position is at or after it,
  it wraps round to the owner of the smallest position. An empty ring
  gives `None`.
- **The DHT node** (`DHT` in `dht.py`) with its sockets removed. This
  covers the local store with `get` and `put`, and the decoding and
  handling of one request datagram (`get`, `put`, `join`, `ping`, or
  anything else). It also covers the join handshake: a `ping` probe, then
  a comparison of the peer's digest with the node's own identifier. If the
  peer's digest is smaller, the node pushes one `put key value` datagram
  per entry. Otherwise it pulls the peer's store and absorbs its
  `key value` lines.

Files:

- `common.dfy`: `Option`, `Result`, `Distinct`, and `IsEnumeration`. An
  enumeration is an iteration order over a dict's keys.
- `text.dfy`: the Python string behaviour the node relies on.
  - `str.split()` is `Words`; `str.split("\n")` is `Lines`; `sep.join` is
    `JoinWith`.
  - `str(int)` is `IntToString` and `int(str)` is `ParseInt`.
  - String `<` is `LexLess`.
- `digest.dfy`: hex digests. `HexValue` is `int(digest, 16)`.
- `ring.dfy`: module `Ring`.
- `dht.dfy`: modules `KeyValue` (the store), `Protocol` (the request
  dispatch of `DHT.run`) and `JoinProtocol` (`DHT.join`).

SHA-1 is never computed. The ring takes the hash function as a parameter
`hash: string -> nat`. The join takes the hex-digest function as a
parameter `hexDigest: string -> string`. Where a ring property depends on
the absence of hash collisions, the lemma says so in a `requires` clause.

The model has no sockets. Received datagrams are parameters: the probe
reply, the bulk reply, and the payload of one request. Sent datagrams are
outputs: `JoinResult.sent`, and the `Reply` effect of a request. A Python
exception that ends the serving loop is an `Err` value. Where the source
has already changed state before raising, that error value carries the
state as it was left. Python dict iteration order is the parameter `order`.

Three behaviours of the code to note:

- `remove_node` of a node that was never added raises `KeyError`, because
  `dict.pop` is called without a default. It is not a silent no-op
  (`Ring.RemoveUnknownRaises`). The node set has already been updated by
  `nodes.discard` when the exception is raised.
- The join compares the two hex-digest strings with Python's `<`.
  `Digest.LexLessIsNumericLess` shows that on equal-length lower-case
  digests this is the numeric comparison.
- A malformed bulk line, an empty request, a `put` without exactly two
  arguments, and a `get` or `join` with too few arguments all raise. The
  exception ends the serving loop. The model returns these as errors, not
  as ignored requests.

## Model

| member | source | states |
|---|---|---|
| `Ring.Positions` | consistant_hash.py:16-17 | a node has exactly `replicas` positions |
| `Ring.WriteAll` | consistant_hash.py:16-18 | the add loop puts the node at every one of its positions, adds only those keys, and leaves every other entry alone |
| `Ring.AddNode` | consistant_hash.py:14-18 | `add_node`: the node becomes a member, `ring[hash(node:i)] == node` for every `i < replicas`, the key set grows by exactly those positions, other entries are unchanged |
| `Ring.Create` | consistant_hash.py:5-12 | the constructor's node set is exactly the listed nodes, and `replicas` is kept |
| `Ring.CreateComplete` | consistant_hash.py:5-12 | when the positions of two different listed nodes never coincide, the constructor's ring holds every listed node at all of its `replicas` positions |
| `Ring.CreateValid` | consistant_hash.py:5-12 | on a freshly built ring, every position is owned by a member at one of that member's own positions |
| `Ring.AddNodeIdempotent` | consistant_hash.py:14-18 | adding the same node twice gives the same ring as adding it once (so `replicas` positions, not twice as many) |
| `Ring.AddPreservesValid` | consistant_hash.py:14-18 | after `add_node`, every position is still owned by a member at one of that member's own positions |
| `Ring.AddPreservesComplete` | consistant_hash.py:14-18 | when the new node's positions are free or already its own, every member still owns all its positions |
| `Ring.PopAll` | consistant_hash.py:22-24 | popping positions succeeds iff they are pairwise different and all present; on success exactly they are removed; on failure the missing key is one of them and only positions were removed |
| `Ring.RemoveNode` | consistant_hash.py:20-24 | `remove_node` succeeds iff the node's positions are distinct and all on the ring, and then removes exactly them and the node; otherwise `KeyError` with the node already discarded and some of its positions popped |
| `Ring.RemovePreservesValid` | consistant_hash.py:20-24 | a successful `remove_node` keeps every position owned by a member at one of its own positions |
| `Ring.RemovePreservesComplete` | consistant_hash.py:20-24 | removing a member keeps every remaining member in possession of all its positions |
| `Ring.RemoveUnknownRaises` | consistant_hash.py:20-24 | removing a node that was never added raises `KeyError` at its first position, with the ring unchanged (no collision assumed) |
| `Ring.RemoveUndoesAdd` | consistant_hash.py:14-24 | `add_node(n)` then `remove_node(n)` restores the ring and node set, when `n` was not a member and its positions are distinct and free |
| `Ring.AddUndoesRemove` | consistant_hash.py:14-24 | removing a member and adding it back restores the ring exactly, so every key maps to the same node again |
| `Ring.Owner` | consistant_hash.py:26-34 | the lookup specification: `None` exactly on an empty ring; otherwise the owner of the least position at or after the hash, or, when no position qualifies, the owner of the least position |
| `Ring.Min` | consistant_hash.py:34 | `min` returns an element of the set no greater than any other |
| `Ring.SortedKeys` | consistant_hash.py:31 | `sorted` returns every key once, in strictly ascending order |
| `Ring.GetNode` | consistant_hash.py:26-34 | the ascending scan with wrap-around returns exactly `Owner` of the key's hash; being a function of the ring alone, repeated lookups agree |
| `Ring.OwnerIsMember` | consistant_hash.py:26-34 | on a valid ring, every node a lookup returns is a member |
| `Digest.HexValue` | consistant_hash.py:37 | `int(digest, 16)`, read left to right: an `n`-digit digest gives a value below `16^n` |
| `Digest.LexLessIsNumericLess` | dht.py:63-66 | on equal-length hex digests, string `<` holds iff the numeric values compare `<` |
| `Text.LexLessIsCodePointOrder` | dht.py:66 | Python's string `<` (`Text.LexLess`) holds iff `a` is a proper prefix of `b`, or `a` has the smaller code point at the first position where they differ |
| `Text.LexLessTrichotomy` | dht.py:66 | string `<` is a strict total order: exactly one of `a < b`, `a == b`, `b < a` |
| `Text.Words` | dht.py:27 | `split()` yields only non-empty words without whitespace |
| `Text.WordsOfJoinedTokens` | dht.py:27 | splitting a space-joined list of words gives back the same words |
| `Text.Lines` | dht.py:82 | `split("\n")` yields at least one piece, none containing a newline |
| `Text.LinesOfJoin` | dht.py:82 | splitting a newline-joined list of newline-free pieces gives back the same pieces |
| `Text.JoinOfLines` | dht.py:82 | joining the pieces of `split("\n")` with newlines gives back the original string |
| `Text.ParseInt` | dht.py:36 | `int(word)` succeeds iff the word is digit groups with an optional leading `+` or `-`; only a leading `-` gives a negative value |
| `Text.ParseIntOfIntToString` | dht.py:36 | `int(str(i)) == i` for every integer |
| `KeyValue.Get` | dht.py:43-47 | `get` returns the stored value of a present key and `""` for a missing one |
| `KeyValue.Put` | dht.py:49-50 | `put` adds exactly the key, makes `get` of it return the value, and leaves every other key's value alone |
| `KeyValue.GetAfterPut` | dht.py:43-50 | after `put(k, v)`, `get(k) == v`, and `get` of any other key is unchanged |
| `KeyValue.EmptyReplyMeansAbsent` | dht.py:43-47 | when no stored value is empty, `get` returns `""` iff the key is absent |
| `Protocol.Decode` | dht.py:27-41 | every decoded command is made of single words; the empty-payload error happens iff the payload has no words |
| `Protocol.DecodeEncode` | dht.py:27-41 | every well-formed command decodes back to itself from its datagram |
| `Protocol.DecodeFailures` | dht.py:27-37 | a request raises iff it has no words, is `get` with no key, is `put` without exactly two arguments, or is `join` with fewer than two arguments or a non-integer port |
| `Protocol.Apply` | dht.py:28-41 | only `put` changes the store and it loses no key; a reply is sent iff the command is `get` or `ping`; only `join` starts a join |
| `Protocol.Step` | dht.py:26-41 | a handled request has at least one word and never loses a key; only a three-word `put` changes the store; only `get` and `ping` reply |
| `Protocol.Deliver` | dht.py:25-41 | the loop handles the requests in order; it gets through all of them iff every one decodes, and it never loses a key |
| `Protocol.StepGet` | dht.py:28-31 | `get k` replies with `get(k)` and leaves the store unchanged |
| `Protocol.PutThenGet` | dht.py:28-34 | `put k v` stores the value and sends no reply; a later `get k` replies `v` |
| `Protocol.StepPing` | dht.py:38-39 | `ping` is answered `"pong"` and leaves the store unchanged |
| `Protocol.StepUnknown` | dht.py:40-41 | any other command is dropped: no reply, store unchanged |
| `Protocol.GetAllGetsNoReply` | dht.py:40-41 | the `get_all` request the pull sends gets no reply from the serving loop |
| `Protocol.StepPreservesTokenStore` | dht.py:32-34 | a store whose keys and values are single words stays so after any request |
| `Protocol.RestrictToEnumeration` | dht.py:69 | iterating a dict in any of its orders visits the whole store |
| `Protocol.Serialize` | dht.py:76-84 | the bulk reply the pull expects (one `key value` line per entry) is empty iff the store is empty; `JoinProtocol.PullFromCorrectedPeer` shows the pull absorbs it back |
| `Protocol.StepWithBulk` | dht.py:76-77 | corrected loop: `get_all` is answered with the whole store as `key value` lines, and every other request is handled as before |
| `JoinProtocol.PushMessages` | dht.py:69-70 | the push sends one datagram per visited entry |
| `JoinProtocol.ParseLine` | dht.py:83 | a line is accepted iff it splits into exactly two words, and the pair is those two words |
| `JoinProtocol.Absorb` | dht.py:82-84 | absorbing succeeds iff every line is two words, and never loses a local key; a failure names a malformed line |
| `JoinProtocol.AbsorbLastLineWins` | dht.py:82-84 | after a complete absorb, each key holds the value of the last line naming it, and keys no line names keep their local value |
| `JoinProtocol.AbsorbStopsAtFirstBadLine` | dht.py:82-84 | a failed absorb stops at the first malformed line, with every line before it already absorbed |
| `JoinProtocol.Pull` | dht.py:77-84 | an empty reply leaves the store unchanged; no pull loses a local key |
| `JoinProtocol.Join` | dht.py:52-84 | a probe reply other than `"pong"` aborts after sending only `ping`, with no change; push iff the probe passed and the peer digest is `<` ours; push and empty pull leave the store unchanged; a push sends `ping` and then exactly the `put key value` datagrams of `PushMessages`; a pull sends `ping`, `get_all`; a completed pull leaves the store `Pull` computes, and a failed one the partial store and malformed line of `Pull`'s error |
| `JoinProtocol.PushIffPeerNumericallySmaller` | dht.py:63-70 | with equal-length hex digests, the push branch is taken iff the peer's identifier is numerically smaller |
| `JoinProtocol.EqualIdentifierPulls` | dht.py:66-73 | a peer whose digest equals our identifier is pulled from, not pushed to |
| `JoinProtocol.OverlayFirstThenRest` | dht.py:69-70 | writing the first entry and then the rest equals writing all of them |
| `JoinProtocol.PushDeliversStore` | dht.py:69-70 | the peer's serving loop, handling the pushed datagrams, ends with all our entries on top of its own store |
| `JoinProtocol.EntryLineParses` | dht.py:83 | a `key value` line of two words parses back to that pair and has no newline |
| `JoinProtocol.PullFromCorrectedPeer` | dht.py:76-84 | pulling from a peer running the corrected loop ends with the peer's entries on top of our own store |

## Findings

| source | as written | input that shows it | evidently intended | confidence | as-written member | corrected member |
|---|---|---|---|---|---|---|
| dht.py:76-77 | The pull branch of `join` sends `get_all` and blocks on `recvfrom` for the reply. The dispatch of `run` (dht.py:28-41) has no `get_all` branch, so the peer logs "Unknown command" and never answers. The joining node then waits forever, because no timeout is set. | any join where the peer's digest is not below ours, against a peer running `DHT.run` | the serving loop answers `get_all` with its whole store as newline-separated `key value` lines, which the pull then absorbs | high; not executed | `Protocol.GetAllGetsNoReply` | `Protocol.StepWithBulk` (its pull round trip is `JoinProtocol.PullFromCorrectedPeer`) |

## Left out

- Sockets (`socket`, `bind`, `recvfrom`, `sendto`) are not modelled. Received datagrams are parameters and sent ones are outputs.
- The 1024-byte receive limit is not modelled. A bulk reply or request longer than that would be cut short.
- Decoding and encoding of datagrams are left out. A payload is an already decoded string, so a `UnicodeDecodeError` on invalid UTF-8 is not modelled.
- The endless `while True` serving loop is modelled one request at a time (`Protocol.Step`).
- `Protocol.Deliver` folds `Step` over a sequence of requests. It does not run the joins those requests may start.
- A `join` request hands over to `JoinProtocol.Join` through the `StartJoin` effect.
- SHA-1 and `hexdigest()` are function parameters. They are not computed.
- `JoinProtocol.Join` does not model a port outside 0-65535 making `sendto` raise. This is a socket-layer error.
- `print` logging is not modelled. It has no effect on state.
- The `__main__` demo blocks of both files are not modelled: threads, `time.sleep`, and `random.choice`.
- `DHT.host` and `DHT.port` are not in `JoinProtocol.Node`. They are used only to bind the socket and in log messages.
- `Text.ParseInt` accepts ASCII digits only. Python's `int()` also accepts other Unicode decimal digits.
- `Ring.Create` takes `replicas` as a natural number. A negative value behaves like 0 in Python (`range` is empty).
- `Ring.Create` has no default arguments. The constructor's defaults `nodes=None` and `replicas=3` are not modelled, so a caller passes `[]` and `3` explicitly.
- Node names in the ring are strings. Python would format any object with its f-string.
- Dict iteration order is the parameter `order`, constrained to list every key once. The model does not track insertion order.
