/**
  The node of `dht.py` with its sockets taken away: the local store, the
  decoding and handling of one request datagram, and the join handshake
  with another node. Received datagrams are inputs, sent datagrams are
  outputs; a Python exception that ends the serving loop is an `Err`.
 */

/** The node's local store (`DHT.data`). */
module KeyValue {

  type Store = map<string, string>

  /** `DHT.get`: the stored value, or the empty string for a missing key. */
  function Get(data: Store, key: string): (r: string)
    ensures key in data ==> r == data[key]
    ensures key !in data ==> r == ""
  {
    if key in data then data[key] else ""
  }

  /** `DHT.put`: inserts or overwrites one key and leaves every other key
      as it was. */
  function Put(data: Store, key: string, value: string): (r: Store)
    ensures r.Keys == data.Keys + {key}
    ensures forall k :: k in data && k != key ==> r[k] == data[k]
    ensures Get(r, key) == value
  {
    data[key := value]
  }

  /** A read after a write sees the written value; reads of other keys see
      what they saw before. */
  lemma GetAfterPut(data: Store, key: string, value: string, other: string)
    ensures Get(Put(data, key, value), key) == value
    ensures other != key ==> Get(Put(data, key, value), other) == Get(data, other)
  {
  }

  /** When no stored value is empty, the empty reply means exactly that the
      key is absent. */
  lemma EmptyReplyMeansAbsent(data: Store, key: string)
    requires forall k :: k in data ==> data[k] != ""
    ensures Get(data, key) == "" <==> key !in data
  {
  }
}

/** The request datagrams a node serves, and what serving one does. */
module Protocol {
  import opened Common
  import opened Text
  import KeyValue

  /** A request after `payload.split()`. */
  datatype Command =
    | Get(key: string)
    | Put(key: string, value: string)
    | Join(host: string, port: int)
    | Ping
    | Unknown(name: string)

  /** The exceptions that end the serving loop. */
  datatype DispatchError =
    | EmptyPayload              // `cmd, *args = []`
    | MissingArgument(command: string)  // `args[0]` or `args[1]` out of range
    | PutArity(arguments: nat)  // `key, value = args` with the wrong count
    | BadPort(text: string)     // `int(args[1])` rejects the word

  predicate IsKeyword(w: string) {
    w == "get" || w == "put" || w == "join" || w == "ping"
  }

  /** The commands a payload can decode to: every field a single word, and
      an unknown command not spelled like a known one. */
  predicate WellFormed(c: Command) {
    match c
    case Get(k) => IsToken(k)
    case Put(k, v) => IsToken(k) && IsToken(v)
    case Join(h, _) => IsToken(h)
    case Ping => true
    case Unknown(n) => IsToken(n) && !IsKeyword(n)
  }

  function DecodeWords(ws: seq<string>): Result<Command, DispatchError>
    requires forall i :: 0 <= i < |ws| ==> IsToken(ws[i])
  {
    if |ws| == 0 then Err(EmptyPayload)
    else
      var cmd, args := ws[0], ws[1..];
      if cmd == "get" then
        if |args| == 0 then Err(MissingArgument(cmd)) else Ok(Get(args[0]))
      else if cmd == "put" then
        if |args| != 2 then Err(PutArity(|args|)) else Ok(Put(args[0], args[1]))
      else if cmd == "join" then
        if |args| < 2 then Err(MissingArgument(cmd))
        else match ParseInt(args[1])
          case None => Err(BadPort(args[1]))
          case Some(port) => Ok(Join(args[0], port))
      else if cmd == "ping" then Ok(Ping)
      else Ok(Unknown(cmd))
  }

  /** The dispatch of `DHT.run` on a decoded datagram. Extra words after
      the ones a command uses are ignored, except for `put`. */
  function Decode(payload: string): (r: Result<Command, DispatchError>)
    ensures r.Ok? ==> WellFormed(r.value)
    ensures r == Err(EmptyPayload) <==> Words(payload) == []
  {
    DecodeWords(Words(payload))
  }

  /** The words a command is sent as. */
  function EncodeWords(c: Command): seq<string> {
    match c
    case Get(k) => ["get", k]
    case Put(k, v) => ["put", k, v]
    case Join(h, p) => ["join", h, IntToString(p)]
    case Ping => ["ping"]
    case Unknown(n) => [n]
  }

  /** The datagram a command is sent as; `put` matches the f-string
      `f"put {key} {value}"` of the push. */
  function Encode(c: Command): string {
    JoinWith(' ', EncodeWords(c))
  }

  /** Every well-formed command survives encoding and decoding. */
  lemma DecodeEncode(c: Command)
    requires WellFormed(c)
    ensures Decode(Encode(c)) == Ok(c)
  {
    var ws := EncodeWords(c);
    if c.Join? {
      IntToStringIsToken(c.port);
      ParseIntOfIntToString(c.port);
    }
    assert forall i :: 0 <= i < |ws| ==> IsToken(ws[i]);
    WordsOfJoinedTokens(ws);
  }

  /** Exactly these payloads end the serving loop with an exception. */
  lemma DecodeFailures(payload: string)
    ensures
      var ws := Words(payload);
      Decode(payload).Err? <==>
        || ws == []
        || (ws[0] == "get" && |ws| < 2)
        || (ws[0] == "put" && |ws| != 3)
        || (ws[0] == "join" && (|ws| < 3 || ParseInt(ws[2]).None?))
  {
  }

  /** What handling a request does to the node. */
  datatype Effect =
    | Reply(text: string)
    | NoReply
    | StartJoin(host: string, port: int)

  datatype Handled = Handled(data: KeyValue.Store, effect: Effect)

  /** The branches of the dispatch: `get` replies with the stored value,
      `put` stores, `join` hands over to the join protocol, `ping` replies
      `"pong"`, anything else is logged and dropped. */
  function Apply(data: KeyValue.Store, c: Command): (h: Handled)
    ensures !c.Put? ==> h.data == data
    ensures data.Keys <= h.data.Keys
    ensures h.effect.Reply? <==> c.Get? || c.Ping?
    ensures h.effect.StartJoin? <==> c.Join?
  {
    match c
    case Get(k) => Handled(data, Reply(KeyValue.Get(data, k)))
    case Put(k, v) => Handled(KeyValue.Put(data, k, v), NoReply)
    case Join(host, port) => Handled(data, StartJoin(host, port))
    case Ping => Handled(data, Reply("pong"))
    case Unknown(_) => Handled(data, NoReply)
  }

  /** One iteration of the serving loop of `DHT.run` on a received
      datagram. Only a three-word `put` changes the store, and it never
      loses a key. */
  function Step(data: KeyValue.Store, payload: string): (r: Result<Handled, DispatchError>)
    ensures r.Ok? ==> |Words(payload)| > 0 && data.Keys <= r.value.data.Keys
    ensures r.Ok? && r.value.data != data ==> |Words(payload)| == 3 && Words(payload)[0] == "put"
    ensures r.Ok? && r.value.effect.Reply? ==> Words(payload)[0] == "get" || Words(payload)[0] == "ping"
  {
    match Decode(payload)
    case Err(e) => Err(e)
    case Ok(c) => Ok(Apply(data, c))
  }

  /** The store after the serving loop handles `payloads` in order,
      stopping at the first exception. Joins they request are not run. */
  function Deliver(data: KeyValue.Store, payloads: seq<string>): (r: Result<KeyValue.Store, DispatchError>)
    ensures r.Ok? <==> forall i :: 0 <= i < |payloads| ==> Decode(payloads[i]).Ok?
    ensures r.Ok? ==> data.Keys <= r.value.Keys
    decreases |payloads|
  {
    if |payloads| == 0 then Ok(data)
    else match Step(data, payloads[0])
      case Err(e) => Err(e)
      case Ok(h) =>
        var r := Deliver(h.data, payloads[1..]);
        assert forall i :: 1 <= i < |payloads| ==> payloads[i] == payloads[1..][i - 1];
        r
  }

  /** A `get` leaves the store alone and replies with the stored value. */
  lemma StepGet(data: KeyValue.Store, key: string)
    requires IsToken(key)
    ensures Step(data, Encode(Get(key))) == Ok(Handled(data, Reply(KeyValue.Get(data, key))))
  {
    DecodeEncode(Get(key));
  }

  /** A `put` followed by a `get` of the same key replies with the value
      put, and no reply is sent for the `put`. */
  lemma PutThenGet(data: KeyValue.Store, key: string, value: string)
    requires IsToken(key) && IsToken(value)
    ensures Step(data, Encode(Put(key, value))) == Ok(Handled(data[key := value], NoReply))
    ensures Step(data[key := value], Encode(Get(key))) == Ok(Handled(data[key := value], Reply(value)))
  {
    DecodeEncode(Put(key, value));
    DecodeEncode(Get(key));
  }

  /** A `ping` is answered with `"pong"`. */
  lemma StepPing(data: KeyValue.Store)
    ensures Step(data, "ping") == Ok(Handled(data, Reply("pong")))
  {
    DecodeEncode(Ping);
  }

  /** A command the dispatch does not know is dropped: no reply and no
      change to the store. */
  lemma StepUnknown(data: KeyValue.Store, name: string)
    requires IsToken(name) && !IsKeyword(name)
    ensures Step(data, name) == Ok(Handled(data, NoReply))
  {
    DecodeEncode(Unknown(name));
    assert Encode(Unknown(name)) == name;
  }

  /** The bulk-transfer request the join protocol sends is one of those:
      the serving loop never answers it. */
  lemma GetAllGetsNoReply(data: KeyValue.Store)
    ensures Step(data, "get_all") == Ok(Handled(data, NoReply))
  {
    assert IsToken("get_all");
    StepUnknown(data, "get_all");
  }

  /** Every key and value is a single word, as in every store the serving
      loop builds from `put` requests. */
  ghost predicate TokenStore(data: KeyValue.Store) {
    forall k :: k in data ==> IsToken(k) && IsToken(data[k])
  }

  /** Serving a request keeps a store of single words one. */
  lemma StepPreservesTokenStore(data: KeyValue.Store, payload: string)
    requires TokenStore(data)
    requires Step(data, payload).Ok?
    ensures TokenStore(Step(data, payload).value.data)
  {
  }

  /** The first `|order|` entries of `data` taken in `order`. */
  function Restrict(data: KeyValue.Store, order: seq<string>): (r: KeyValue.Store)
    ensures forall k :: k in r <==> k in data && k in order
  {
    map k | k in data && k in order :: data[k]
  }

  /** Restricting to an enumeration of all keys keeps the whole store. */
  lemma RestrictToEnumeration(data: KeyValue.Store, order: seq<string>)
    requires IsEnumeration(order, data.Keys)
    ensures Restrict(data, order) == data
  {
  }

  // The bulk transfer, which the serving loop lacks

  /** The line sent for one store entry. */
  function EntryLine(key: string, value: string): (l: string)
    ensures l == key + [' '] + value
  {
    assert [key, value][1..] == [value];
    assert JoinWith(' ', [value]) == value;
    JoinWith(' ', [key, value])
  }

  /** The lines of a bulk transfer of `data`, entries in `order`. */
  function EntryLines(data: KeyValue.Store, order: seq<string>): (ls: seq<string>)
    requires forall i :: 0 <= i < |order| ==> order[i] in data
    ensures |ls| == |order|
    decreases |order|
  {
    if |order| == 0 then []
    else [EntryLine(order[0], data[order[0]])] + EntryLines(data, order[1..])
  }

  /** The bulk-transfer reply: one `key value` line per entry, separated by
      newlines; the empty string for an empty store. */
  function Serialize(data: KeyValue.Store, order: seq<string>): (r: string)
    requires IsEnumeration(order, data.Keys)
    ensures r == "" <==> |data| == 0
  {
    EnumerationSize(order, data.Keys);
    var ls := EntryLines(data, order);
    if |ls| == 0 then ""
    else
      assert |ls[0]| > 0 by {
        assert ls[0] == EntryLine(order[0], data[order[0]]);
      }
      var r := JoinWith('\n', ls);
      assert |ls| > 1 ==> r == ls[0] + ['\n'] + JoinWith('\n', ls[1..]);
      r
  }

  /** The serving loop with the `get_all` branch the join protocol expects:
      it replies with the whole store. Every other request is handled as
      before. */
  function StepWithBulk(data: KeyValue.Store, order: seq<string>, payload: string): (r: Result<Handled, DispatchError>)
    requires IsEnumeration(order, data.Keys)
    ensures r.Ok? ==> data.Keys <= r.value.data.Keys
    ensures Words(payload) != [] && Words(payload)[0] == "get_all" ==>
              r == Ok(Handled(data, Reply(Serialize(data, order))))
    ensures Words(payload) == [] || Words(payload)[0] != "get_all" ==> r == Step(data, payload)
  {
    var ws := Words(payload);
    if ws != [] && ws[0] == "get_all" then Ok(Handled(data, Reply(Serialize(data, order))))
    else Step(data, payload)
  }
}

/** The join handshake of `DHT.join`: the datagrams it receives are
    inputs, the datagrams it sends are outputs. */
module JoinProtocol {
  import opened Common
  import opened Text
  import Digest
  import KeyValue
  import opened Protocol

  /** The part of a node the handshake reads or changes: its identifier
      (a hex digest) and its store. */
  datatype Node = Node(nodeId: string, data: KeyValue.Store)

  datatype JoinOutcome =
    | Unreachable               // the probe was not answered with "pong"
    | Pushed                    // the peer precedes us: our entries were sent
    | PullEmpty                 // the peer follows us and had nothing
    | Pulled                    // the peer's entries were absorbed
    | PullFailed(line: string)  // a line of the reply was not two words

  /** The store after the handshake, the datagrams sent to the peer, and
      how it ended. */
  datatype JoinResult = JoinResult(data: KeyValue.Store, sent: seq<string>, outcome: JoinOutcome)

  /** The string whose digest is the peer's identifier. */
  function PeerTag(host: string, port: int): string {
    host + ":" + IntToString(port)
  }

  /** The push: one `put key value` datagram per entry, entries in
      `order`. */
  function PushMessages(data: KeyValue.Store, order: seq<string>): (msgs: seq<string>)
    requires forall i :: 0 <= i < |order| ==> order[i] in data
    ensures |msgs| == |order|
    decreases |order|
  {
    if |order| == 0 then []
    else [Encode(Put(order[0], data[order[0]]))] + PushMessages(data, order[1..])
  }

  /** `key, value = line.split()`: a line of exactly two words. */
  function ParseLine(line: string): (r: Option<(string, string)>)
    ensures r.Some? <==> |Words(line)| == 2
    ensures r.Some? ==> [r.value.0, r.value.1] == Words(line)
    ensures r.Some? ==> IsToken(r.value.0) && IsToken(r.value.1)
  {
    var ws := Words(line);
    if |ws| == 2 then Some((ws[0], ws[1])) else None
  }

  /** The `ValueError` of a malformed line, with the store as the lines
      before it left it. */
  datatype AbsorbError = BadLine(line: string, partial: KeyValue.Store)

  /** The loop that absorbs the pulled lines one after the other,
      overwriting local values, up to the first line that is not two
      words. */
  function Absorb(data: KeyValue.Store, lines: seq<string>): (r: Result<KeyValue.Store, AbsorbError>)
    ensures r.Ok? <==> forall i :: 0 <= i < |lines| ==> ParseLine(lines[i]).Some?
    ensures r.Ok? ==> data.Keys <= r.value.Keys
    ensures r.Err? ==> ParseLine(r.error.line).None? && data.Keys <= r.error.partial.Keys
    decreases |lines|
  {
    if |lines| == 0 then Ok(data)
    else match ParseLine(lines[0])
      case None => Err(BadLine(lines[0], data))
      case Some((k, v)) =>
        var r := Absorb(data[k := v], lines[1..]);
        assert forall i :: 1 <= i < |lines| ==> lines[i] == lines[1..][i - 1];
        r
  }

  /** The value the last two-word line for `key` carries, if any. */
  function LastValue(lines: seq<string>, key: string): Option<string>
    decreases |lines|
  {
    if |lines| == 0 then None
    else match LastValue(lines[1..], key)
      case Some(v) => Some(v)
      case None =>
        match ParseLine(lines[0])
        case Some((k, v)) => if k == key then Some(v) else None
        case None => None
  }

  /** After a complete absorb, a key holds the value of the last line
      naming it; a key no line names keeps its local value. */
  lemma {:induction false} AbsorbLastLineWins(data: KeyValue.Store, lines: seq<string>, key: string)
    requires Absorb(data, lines).Ok?
    ensures
      var d := Absorb(data, lines).value;
      match LastValue(lines, key)
      case Some(v) => key in d && d[key] == v
      case None => (key in d <==> key in data) && (key in data ==> d[key] == data[key])
    decreases |lines|
  {
    if |lines| > 0 {
      var (k, v) := ParseLine(lines[0]).value;
      AbsorbLastLineWins(data[k := v], lines[1..], key);
    }
  }

  /** A failed absorb stops at the first malformed line, with the lines
      before it already absorbed. */
  lemma {:induction false} AbsorbStopsAtFirstBadLine(data: KeyValue.Store, lines: seq<string>)
    requires Absorb(data, lines).Err?
    ensures exists i :: 0 <= i < |lines|
              && lines[i] == Absorb(data, lines).error.line
              && (forall j :: 0 <= j < i ==> ParseLine(lines[j]).Some?)
              && Absorb(data, lines[..i]) == Ok(Absorb(data, lines).error.partial)
    decreases |lines|
  {
    var e := Absorb(data, lines).error;
    if ParseLine(lines[0]).None? {
      assert lines[..0] == [];
      assert lines[0] == e.line;
    } else {
      var (k, v) := ParseLine(lines[0]).value;
      AbsorbStopsAtFirstBadLine(data[k := v], lines[1..]);
      var i :| 0 <= i < |lines[1..]|
                && lines[1..][i] == e.line
                && (forall j :: 0 <= j < i ==> ParseLine(lines[1..][j]).Some?)
                && Absorb(data[k := v], lines[1..][..i]) == Ok(e.partial);
      assert lines[..i + 1][1..] == lines[1..][..i];
      assert lines[i + 1] == e.line;
      assert forall j :: 0 <= j < i + 1 ==> ParseLine(lines[j]).Some? by {
        forall j | 0 <= j < i + 1 ensures ParseLine(lines[j]).Some? {
          if j > 0 {
            assert lines[j] == lines[1..][j - 1];
          }
        }
      }
    }
  }

  /** The pull: an empty reply changes nothing; otherwise every line of it
      is absorbed. */
  function Pull(data: KeyValue.Store, reply: string): (r: Result<KeyValue.Store, AbsorbError>)
    ensures reply == "" ==> r == Ok(data)
    ensures r.Ok? ==> data.Keys <= r.value.Keys
  {
    if reply == "" then Ok(data) else Absorb(data, Lines(reply))
  }

  /** `DHT.join(peer)`. The probe reply, the digest function and the
      peer's bulk reply are inputs; `order` is the store's iteration
      order. A peer whose digest is below ours is pushed to; any other
      peer, one with an equal digest included, is pulled from. */
  function Join(node: Node, host: string, port: int, hexDigest: string -> string,
                probeReply: string, order: seq<string>, pullReply: string): (j: JoinResult)
    requires IsEnumeration(order, node.data.Keys)
    ensures j.outcome.Unreachable? <==> probeReply != "pong"
    ensures j.outcome.Pushed? <==> probeReply == "pong" && LexLess(hexDigest(PeerTag(host, port)), node.nodeId)
    ensures j.outcome.PullEmpty? <==>
              probeReply == "pong" && !LexLess(hexDigest(PeerTag(host, port)), node.nodeId) && pullReply == ""
    ensures j.outcome.Unreachable? || j.outcome.Pushed? || j.outcome.PullEmpty? ==> j.data == node.data
    ensures node.data.Keys <= j.data.Keys
    ensures j.outcome.Unreachable? ==> j.sent == ["ping"]
    ensures j.outcome.Pushed? ==> j.sent == ["ping"] + PushMessages(node.data, order)
    ensures j.outcome.Pushed? ==> |j.sent| == 1 + |node.data|
    ensures j.outcome.Pulled? ==> Pull(node.data, pullReply) == Ok(j.data)
    ensures j.outcome.PullFailed? ==> Pull(node.data, pullReply) == Err(BadLine(j.outcome.line, j.data))
    ensures j.outcome.PullEmpty? || j.outcome.Pulled? || j.outcome.PullFailed? ==> j.sent == ["ping", "get_all"]
  {
    if probeReply != "pong" then JoinResult(node.data, ["ping"], Unreachable)
    else
      var peerId := hexDigest(PeerTag(host, port));
      if LexLess(peerId, node.nodeId) then
        EnumerationSize(order, node.data.Keys);
        JoinResult(node.data, ["ping"] + PushMessages(node.data, order), Pushed)
      else
        var sent := ["ping", "get_all"];
        if pullReply == "" then JoinResult(node.data, sent, PullEmpty)
        else match Absorb(node.data, Lines(pullReply))
          case Ok(d) => JoinResult(d, sent, Pulled)
          case Err(e) => JoinResult(e.partial, sent, PullFailed(e.line))
  }

  /** For digests of equal length, the push branch is taken exactly when
      the peer's identifier is numerically below ours. */
  lemma PushIffPeerNumericallySmaller(node: Node, host: string, port: int, hexDigest: string -> string,
                                      order: seq<string>, pullReply: string)
    requires IsEnumeration(order, node.data.Keys)
    requires Digest.IsHexDigest(hexDigest(PeerTag(host, port))) && Digest.IsHexDigest(node.nodeId)
    requires |hexDigest(PeerTag(host, port))| == |node.nodeId|
    ensures Join(node, host, port, hexDigest, "pong", order, pullReply).outcome.Pushed? <==>
              Digest.HexValue(hexDigest(PeerTag(host, port))) < Digest.HexValue(node.nodeId)
  {
    Digest.LexLessIsNumericLess(hexDigest(PeerTag(host, port)), node.nodeId);
  }

  /** A peer with our own identifier is pulled from, not pushed to. */
  lemma EqualIdentifierPulls(node: Node, host: string, port: int, hexDigest: string -> string,
                             order: seq<string>, pullReply: string)
    requires IsEnumeration(order, node.data.Keys)
    requires hexDigest(PeerTag(host, port)) == node.nodeId
    ensures !Join(node, host, port, hexDigest, "pong", order, pullReply).outcome.Pushed?
  {
    LexLessTrichotomy(node.nodeId, node.nodeId);
  }

  /** Writing the first entry, then the rest, is writing them all. */
  lemma OverlayFirstThenRest(base: KeyValue.Store, data: KeyValue.Store, order: seq<string>)
    requires |order| > 0 && order[0] in data
    ensures base[order[0] := data[order[0]]] + Restrict(data, order[1..]) == base + Restrict(data, order)
  {
    var k := order[0];
    var lhs := base[k := data[k]] + Restrict(data, order[1..]);
    var rhs := base + Restrict(data, order);
    assert forall x :: x in order <==> x == k || x in order[1..];
    assert lhs.Keys == rhs.Keys;
    forall x | x in lhs ensures lhs[x] == rhs[x] {
      if x in Restrict(data, order[1..]) {
        assert lhs[x] == data[x];
      }
    }
  }

  lemma {:induction false} DeliverPushMessages(peer: KeyValue.Store, data: KeyValue.Store, order: seq<string>)
    requires forall i :: 0 <= i < |order| ==> order[i] in data
    requires TokenStore(data)
    ensures Deliver(peer, PushMessages(data, order)) == Ok(peer + Restrict(data, order))
    decreases |order|
  {
    if |order| == 0 {
      assert Restrict(data, order) == map[];
      assert peer + map[] == peer;
    } else {
      var k := order[0];
      var msgs := PushMessages(data, order);
      var next := peer[k := data[k]];
      DecodeEncode(Put(k, data[k]));
      assert msgs[0] == Encode(Put(k, data[k]));
      assert msgs[1..] == PushMessages(data, order[1..]);
      assert Step(peer, msgs[0]) == Ok(Handled(next, NoReply));
      assert Deliver(peer, msgs) == Deliver(next, msgs[1..]);
      DeliverPushMessages(next, data, order[1..]);
      OverlayFirstThenRest(peer, data, order);
    }
  }

  /** The peer's serving loop, handling the pushed datagrams, ends up with
      all our entries on top of its own. */
  lemma PushDeliversStore(peer: KeyValue.Store, node: Node, order: seq<string>)
    requires IsEnumeration(order, node.data.Keys)
    requires TokenStore(node.data)
    ensures Deliver(peer, PushMessages(node.data, order)) == Ok(peer + node.data)
  {
    DeliverPushMessages(peer, node.data, order);
    RestrictToEnumeration(node.data, order);
  }

  lemma EntryLineParses(key: string, value: string)
    requires IsToken(key) && IsToken(value)
    ensures ParseLine(EntryLine(key, value)) == Some((key, value))
    ensures '\n' !in EntryLine(key, value)
  {
    WordsOfJoinedTokens([key, value]);
    var line := EntryLine(key, value);
    assert line == key + [' '] + value;
    forall i | 0 <= i < |line| ensures line[i] != '\n' {
      if i < |key| {
        assert line[i] == key[i];
      } else if i > |key| {
        assert line[i] == value[i - |key| - 1];
      }
    }
  }

  lemma {:induction false} AbsorbEntryLines(data: KeyValue.Store, peer: KeyValue.Store, order: seq<string>)
    requires forall i :: 0 <= i < |order| ==> order[i] in peer
    requires TokenStore(peer)
    ensures Absorb(data, EntryLines(peer, order)) == Ok(data + Restrict(peer, order))
    decreases |order|
  {
    if |order| == 0 {
      assert Restrict(peer, order) == map[];
      assert data + map[] == data;
    } else {
      var k := order[0];
      var lines := EntryLines(peer, order);
      var next := data[k := peer[k]];
      EntryLineParses(k, peer[k]);
      assert lines[0] == EntryLine(k, peer[k]);
      assert lines[1..] == EntryLines(peer, order[1..]);
      assert Absorb(data, lines) == Absorb(next, lines[1..]);
      AbsorbEntryLines(next, peer, order[1..]);
      OverlayFirstThenRest(data, peer, order);
    }
  }

  lemma {:induction false} EntryLinesShape(peer: KeyValue.Store, order: seq<string>)
    requires forall i :: 0 <= i < |order| ==> order[i] in peer
    requires TokenStore(peer)
    ensures forall i :: 0 <= i < |order| ==> '\n' !in EntryLines(peer, order)[i]
    ensures |order| > 0 ==> |EntryLines(peer, order)[0]| > 0
    decreases |order|
  {
    if |order| > 0 {
      EntryLineParses(order[0], peer[order[0]]);
      EntryLinesShape(peer, order[1..]);
      var ls := EntryLines(peer, order);
      assert forall i :: 1 <= i < |order| ==> ls[i] == EntryLines(peer, order[1..])[i - 1];
      assert ls[0] == EntryLine(order[0], peer[order[0]]);
      assert ParseLine(ls[0]).Some?;
    }
  }

  /** A pull from a peer whose serving loop answers the bulk request (the
      corrected loop) ends with the peer's entries on top of our own. */
  lemma PullFromCorrectedPeer(data: KeyValue.Store, peer: KeyValue.Store, order: seq<string>)
    requires IsEnumeration(order, peer.Keys)
    requires TokenStore(peer)
    ensures StepWithBulk(peer, order, "get_all").Ok?
    ensures StepWithBulk(peer, order, "get_all").value.effect.Reply?
    ensures Pull(data, StepWithBulk(peer, order, "get_all").value.effect.text) == Ok(data + peer)
  {
    assert IsToken("get_all");
    WordsOfJoinedTokens(["get_all"]);
    assert JoinWith(' ', ["get_all"]) == "get_all";
    var reply := Serialize(peer, order);
    var lines := EntryLines(peer, order);
    RestrictToEnumeration(peer, order);
    if |order| == 0 {
      assert peer == map[];
      assert data + peer == data;
    } else {
      EntryLinesShape(peer, order);
      assert reply != "" by {
        if |lines| == 1 {
          assert reply == lines[0];
        } else {
          assert reply == lines[0] + ['\n'] + JoinWith('\n', lines[1..]);
        }
      }
      LinesOfJoin(lines);
      AbsorbEntryLines(data, peer, order);
    }
  }
}
