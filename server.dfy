/**
 * The bookkeeping of `WebSocketServer::run` and `send`: the list of sockets
 * (the listener first, then every accepted client), the fan-out of each
 * outgoing frame to every entry of that list, and one pass of the event
 * loop. The socket calls are not modelled; what they return is passed in
 * (`Io`), and every `socket_write` is recorded in the `outbox` log.
 */
module Server {
  import opened Base
  import Frame
  import Handshake
  import Notices

  /** An opaque socket resource. */
  type Handle = nat

  /** One `socket_write` the server issues, in order. */
  datatype Write =
    | Reply(to: Handle, text: string)         // the handshake reply to a new socket
    | Push(to: Handle, frame: seq<byte>)      // a frame written by `send`

  /** What the socket calls of one pass return. */
  datatype Io = Io(
    readable: Handle -> bool,       // kept in the array by socket_select
    accepted: Handle,               // socket_accept on the listener
    request: string,                // socket_read of the new socket: the upgrade request
    peer: Handle -> string,         // the address socket_getpeername reports
    recv: Handle -> seq<byte>,      // what socket_recv reads; empty when it returns less than 1
    readFails: Handle -> bool)      // socket_read(..., PHP_NORMAL_READ) returns false

  /** The configuration and the library code the server calls but this model does not contain. */
  datatype Env = Env(
    host: string,                               // WEBSOCKET_HOST
    port: string,                               // WEBSOCKET_PORT, as interpolated
    digest: string -> string,                   // base64_encode(pack('H*', sha1(...)))
    jsonEncode: Notices.Notice -> seq<byte>,    // json_encode of the message array
    chatFields: seq<byte> -> (string, string))  // json_decode, then ->chat_user and ->chat_message

  /** The list of sockets and the log of writes. */
  datatype Registry = Registry(clients: seq<Handle>, outbox: seq<Write>)

  /** How a pass ends: no inbound message, one handled message, or a `seal` failure that stops the server. */
  datatype Status = Idle | Handled(from: Handle) | Halted

  datatype Outcome = Outcome(registry: Registry, status: Status)

  // ---------------------------------------------------------------------------
  // Sequences of handles
  // ---------------------------------------------------------------------------

  ghost predicate Distinct(s: seq<Handle>)
  {
    forall i, j :: 0 <= i < j < |s| ==> s[i] != s[j]
  }

  /** The shape `run` keeps: the listener at index 0, and no handle twice. */
  ghost predicate WellFormed(clients: seq<Handle>, listener: Handle)
  {
    |clients| >= 1 && clients[0] == listener && Distinct(clients)
  }

  /** The writes `send` issues: one per entry of the list, in list order. */
  function FanOut(targets: seq<Handle>, frame: seq<byte>): (w: seq<Write>)
    decreases |targets|
  {
    if targets == [] then [] else FanOut(targets[..|targets| - 1], frame) + [Push(targets[|targets| - 1], frame)]
  }

  /** Every entry, listener included, receives the frame exactly once and in list order. */
  lemma {:induction false} FanOutReachesEveryEntry(targets: seq<Handle>, frame: seq<byte>)
    ensures |FanOut(targets, frame)| == |targets|
    ensures forall i :: 0 <= i < |targets| ==> FanOut(targets, frame)[i] == Push(targets[i], frame)
    decreases |targets|
  {
    if targets != [] {
      FanOutReachesEveryEntry(targets[..|targets| - 1], frame);
    }
  }

  /** The array socket_select leaves: the entries it reports readable, in order. */
  function Selected(clients: seq<Handle>, readable: Handle -> bool): (r: seq<Handle>)
    ensures forall x :: x in r <==> x in clients && readable(x)
    decreases |clients|
  {
    if clients == [] then []
    else if readable(clients[0]) then [clients[0]] + Selected(clients[1..], readable)
    else Selected(clients[1..], readable)
  }

  /** The selection of a list without repeats has no repeats. */
  lemma {:induction false} SelectedDistinct(clients: seq<Handle>, readable: Handle -> bool)
    requires Distinct(clients)
    ensures Distinct(Selected(clients, readable))
    decreases |clients|
  {
    if clients != [] {
      SelectedDistinct(clients[1..], readable);
    }
  }

  /**
   * The selection keeps list order: selecting from a list is selecting from
   * its first `n` entries followed by selecting from the rest.
   */
  lemma {:induction false} SelectedSplits(clients: seq<Handle>, n: nat, readable: Handle -> bool)
    requires n <= |clients|
    ensures Selected(clients, readable) == Selected(clients[..n], readable) + Selected(clients[n..], readable)
    decreases n
  {
    if n > 0 {
      var tail := clients[1..];
      SelectedSplits(tail, n - 1, readable);
      assert clients[..n][1..] == tail[..n - 1];
      assert tail[n - 1..] == clients[n..];
      var head := if readable(clients[0]) then [clients[0]] else [];
      assert Selected(clients, readable) == head + Selected(tail, readable);
      assert Selected(clients[..n], readable) == head + Selected(tail[..n - 1], readable);
      ConcatAssociates(head, Selected(tail[..n - 1], readable), Selected(clients[n..], readable));
    } else {
      assert clients[..0] == [] && clients[0..] == clients;
    }
  }

  /** `array_search` then `unset` when the search finds `h`: the first entry equal to `h` leaves the list. */
  function Without(s: seq<Handle>, h: Handle): (r: seq<Handle>)
    decreases |s|
  {
    if s == [] then [] else if s[0] == h then s[1..] else [s[0]] + Without(s[1..], h)
  }

  /**
   * Removing a present handle deletes exactly that entry: the others stay,
   * in order, and the first entry stays first unless it was `h`.
   */
  lemma {:induction false} WithoutRemovesOneEntry(s: seq<Handle>, h: Handle)
    requires h in s
    ensures exists i :: 0 <= i < |s| && s[i] == h && Without(s, h) == s[..i] + s[i + 1..]
    ensures s[0] != h ==> |Without(s, h)| >= 1 && Without(s, h)[0] == s[0]
    decreases |s|
  {
    if s[0] == h {
      assert s[0] == h && Without(s, h) == s[..0] + s[1..];
    } else {
      WithoutRemovesOneEntry(s[1..], h);
      var tail := s[1..];
      var i :| 0 <= i < |tail| && tail[i] == h && Without(tail, h) == tail[..i] + tail[i + 1..];
      SliceAfterHead(s, i + 1);
      assert Without(s, h) == [s[0]] + (tail[..i] + tail[i + 1..]);
      ConcatAssociates([s[0]], tail[..i], tail[i + 1..]);
      assert s[i + 1] == h;
    }
  }

  /** In a list without repeats, removal takes out exactly `h` and keeps the list free of repeats. */
  lemma {:induction false} WithoutMembers(s: seq<Handle>, h: Handle)
    requires Distinct(s)
    ensures forall x :: x in Without(s, h) <==> x in s && x != h
    ensures Distinct(Without(s, h))
    decreases |s|
  {
    if s != [] && s[0] != h {
      WithoutMembers(s[1..], h);
      var rest := Without(s[1..], h);
      assert s[0] !in rest by {
        assert s[0] !in s[1..];
      }
      var w := Without(s, h);
      assert w == [s[0]] + rest;
      forall i, j | 0 <= i < j < |w| ensures w[i] != w[j] {
        assert w[j] == rest[j - 1];
        if i > 0 {
          assert w[i] == rest[i - 1];
        } else {
          assert rest[j - 1] in rest;
        }
      }
    }
  }

  /**
   * `unset($list[array_search($h, $list)])`. When the search misses it
   * returns `false`, which PHP reads as key 0, so the entry at key 0 (the
   * first one: key 0 holds the listener and is never unset) leaves instead.
   */
  function Unset(s: seq<Handle>, h: Handle): seq<Handle>
  {
    if h in s then Without(s, h) else if s == [] then [] else s[1..]
  }

  /** A search that misses drops the first entry, however the rest of the list looks. */
  lemma UnsetMissDropsFirst(s: seq<Handle>, h: Handle)
    requires h !in s && |s| >= 1
    ensures |Unset(s, h)| == |s| - 1
    ensures forall i :: 0 <= i < |s| - 1 ==> Unset(s, h)[i] == s[i + 1]
  {
  }

  // ---------------------------------------------------------------------------
  // One pass of the event loop, as values
  // ---------------------------------------------------------------------------

  /** `send`: the list is unchanged and every entry gets the frame. */
  function Broadcast(registry: Registry, frame: seq<byte>): Registry
  {
    Registry(registry.clients, registry.outbox + FanOut(registry.clients, frame))
  }

  /**
   * The listener is readable: append the accepted socket, write it the
   * handshake reply, and announce it to every entry (websocket.php:112-121).
   */
  function Admit(registry: Registry, io: Io, env: Env): Outcome
  {
    var clients := registry.clients + [io.accepted];
    var reply := Handshake.Reply(io.request, env.host, env.port, env.digest);
    var greeted := Registry(clients, registry.outbox + [Reply(io.accepted, reply)]);
    match Notices.NewConnectionAck(io.peer(io.accepted), env.jsonEncode)
    case Ok(frame) => Outcome(Broadcast(greeted, frame), Idle)
    case Err(_) => Outcome(greeted, Halted)
  }

  /**
   * A socket with data: its frame is unsealed, read as a chat message, and
   * the chat line is sent to every entry (websocket.php:128-133).
   */
  function Relay(h: Handle, registry: Registry, io: Io, env: Env): Outcome
  {
    var (user, text) := env.chatFields(Frame.Unsealed(io.recv(h)));
    match Notices.CreateChatBoxMessage(user, text, env.jsonEncode)
    case Ok(frame) => Outcome(Broadcast(registry, frame), Handled(h))
    case Err(_) => Outcome(registry, Halted)
  }

  /**
   * A socket whose read fails: its departure is sent to every entry, itself
   * included, and then it is unset from the list (websocket.php:137-144).
   */
  function Depart(h: Handle, registry: Registry, io: Io, env: Env): Outcome
  {
    match Notices.ConnectionDisconnectAck(io.peer(h), env.jsonEncode)
    case Ok(frame) =>
      var told := Broadcast(registry, frame);
      Outcome(Registry(Unset(told.clients, h), told.outbox), Idle)
    case Err(_) => Outcome(registry, Halted)
  }

  /**
   * The `foreach` over the readable sockets, from `pending` on: the first
   * socket with data is relayed and the pass ends there (`break 2`); a
   * socket whose read fails departs; any other socket is skipped.
   */
  function Scan(pending: seq<Handle>, registry: Registry, io: Io, env: Env): Outcome
    decreases |pending|
  {
    if pending == [] then Outcome(registry, Idle)
    else
      var h := pending[0];
      if |io.recv(h)| >= 1 then Relay(h, registry, io, env)
      else if io.readFails(h) then
        var departed := Depart(h, registry, io, env);
        if departed.status == Halted then departed else Scan(pending[1..], departed.registry, io, env)
      else Scan(pending[1..], registry, io, env)
  }

  /** The list after the scan visits `h` without finding data. */
  function AfterVisit(h: Handle, registry: Registry, io: Io, env: Env): Registry
  {
    if io.readFails(h) then Depart(h, registry, io, env).registry else registry
  }

  /**
   * The sockets the `foreach` visits: those `socket_select` keeps, less the
   * listener once it has been served (websocket.php:108-109, 123-124; the
   * search for the listener cannot miss, `in_array` has just found it).
   */
  function Snapshot(listener: Handle, clients: seq<Handle>, readable: Handle -> bool): seq<Handle>
  {
    var ready := Selected(clients, readable);
    if listener in ready then Without(ready, listener) else ready
  }

  /** The accept step of a pass: `Admit` when the listener is readable, nothing otherwise. */
  function Opening(listener: Handle, registry: Registry, io: Io, env: Env): Outcome
  {
    if io.readable(listener) && listener in registry.clients then Admit(registry, io, env)
    else Outcome(registry, Idle)
  }

  /** One iteration of the `while (true)` loop of `run` (websocket.php:108-145). */
  function Pass(listener: Handle, registry: Registry, io: Io, env: Env): Outcome
  {
    var entered := Opening(listener, registry, io, env);
    if entered.status == Halted then entered
    else Scan(Snapshot(listener, registry.clients, io.readable), entered.registry, io, env)
  }

  /**
   * Every socket the scan unsets is found by `array_search`: at each failed
   * read the socket is still in the list.
   */
  ghost predicate FindsEveryDeparture(pending: seq<Handle>, registry: Registry, io: Io, env: Env)
    decreases |pending|
  {
    if pending == [] || |io.recv(pending[0])| >= 1 then true
    else if io.readFails(pending[0]) then
      var departed := Depart(pending[0], registry, io, env);
      && pending[0] in registry.clients
      && (departed.status == Halted || FindsEveryDeparture(pending[1..], departed.registry, io, env))
    else FindsEveryDeparture(pending[1..], registry, io, env)
  }

  // ---------------------------------------------------------------------------
  // What a pass guarantees
  // ---------------------------------------------------------------------------

  /** An accept appends the new socket as the last entry and leaves the others in order. */
  lemma AdmitAppends(registry: Registry, io: Io, env: Env)
    ensures Admit(registry, io, env).registry.clients == registry.clients + [io.accepted]
    ensures Admit(registry, io, env).registry.outbox[|registry.outbox|] ==
      Reply(io.accepted, Handshake.Reply(io.request, env.host, env.port, env.digest))
  {
  }

  /**
   * Nothing after the first socket with data is looked at: the pass ends
   * with that socket's message, whatever follows it in the snapshot.
   */
  lemma {:induction false} ScanStopsAtFirstMessage(before: seq<Handle>, h: Handle, after: seq<Handle>, registry: Registry, io: Io, env: Env)
    requires |io.recv(h)| >= 1
    ensures Scan(before + [h] + after, registry, io, env) == Scan(before + [h], registry, io, env)
    decreases |before|
  {
    if before == [] {
      assert ([h] + after)[0] == h && [h][0] == h;
    } else {
      var p := before + [h] + after;
      var q := before + [h];
      assert p[0] == q[0] == before[0];
      assert p[1..] == before[1..] + [h] + after;
      assert q[1..] == before[1..] + [h];
      ScanStopsAtFirstMessage(before[1..], h, after, AfterVisit(before[0], registry, io, env), io, env);
    }
  }

  /**
   * At most one inbound message per pass: when the pass handles the message
   * of `h`, `h` is in the snapshot, has data, and every socket before it had
   * none.
   */
  lemma {:induction false} ScanHandlesFirstMessage(pending: seq<Handle>, registry: Registry, io: Io, env: Env, h: Handle)
    requires Scan(pending, registry, io, env).status == Handled(h)
    ensures exists k ::
      && 0 <= k < |pending| && pending[k] == h && |io.recv(h)| >= 1
      && (forall j :: 0 <= j < k ==> |io.recv(pending[j])| == 0)
    decreases |pending|
  {
    var x := pending[0];
    if |io.recv(x)| >= 1 {
      assert pending[0] == h;
    } else {
      ScanHandlesFirstMessage(pending[1..], AfterVisit(x, registry, io, env), io, env, h);
      var k :| 0 <= k < |pending[1..]| && pending[1..][k] == h && |io.recv(h)| >= 1 &&
        (forall j :: 0 <= j < k ==> |io.recv(pending[1..][j])| == 0);
      assert pending[k + 1] == h;
      forall j | 0 <= j < k + 1 ensures |io.recv(pending[j])| == 0 {
        if j > 0 { assert pending[j] == pending[1..][j - 1]; }
      }
    }
  }

  /**
   * The scan only ever removes sockets, and only those it visited whose read
   * failed; it keeps the listener first and the list free of repeats, and
   * every search for a departing socket finds it.
   */
  lemma {:induction false} ScanRemovesOnlyFailedReads(pending: seq<Handle>, registry: Registry, io: Io, env: Env, listener: Handle)
    requires WellFormed(registry.clients, listener) && listener !in pending
    requires Distinct(pending) && forall x :: x in pending ==> x in registry.clients
    ensures var after := Scan(pending, registry, io, env).registry.clients;
      && WellFormed(after, listener)
      && (forall x :: x in after ==> x in registry.clients)
      && (forall x :: x in registry.clients && x !in after ==>
            x in pending && |io.recv(x)| == 0 && io.readFails(x))
    ensures FindsEveryDeparture(pending, registry, io, env)
    decreases |pending|
  {
    if pending != [] {
      var x := pending[0];
      var rest := pending[1..];
      assert Distinct(rest) && x !in rest by {
        forall j | 0 <= j < |rest| ensures rest[j] != x {
          assert rest[j] == pending[j + 1];
        }
      }
      if |io.recv(x)| == 0 && io.readFails(x) {
        var departed := Depart(x, registry, io, env);
        if departed.status != Halted {
          WithoutMembers(registry.clients, x);
          WithoutRemovesOneEntry(registry.clients, x);
          ScanRemovesOnlyFailedReads(rest, departed.registry, io, env, listener);
        }
      } else if |io.recv(x)| == 0 {
        ScanRemovesOnlyFailedReads(rest, registry, io, env, listener);
      }
    }
  }

  /** A scan that ends idle relayed nothing because no socket it visited had data. */
  lemma {:induction false} ScanIdleNoData(pending: seq<Handle>, registry: Registry, io: Io, env: Env)
    requires Scan(pending, registry, io, env).status == Idle
    ensures forall k :: 0 <= k < |pending| ==> |io.recv(pending[k])| == 0
    decreases |pending|
  {
    if pending != [] {
      var x := pending[0];
      assert |io.recv(x)| == 0;
      ScanIdleNoData(pending[1..], AfterVisit(x, registry, io, env), io, env);
      forall k | 1 <= k < |pending| ensures |io.recv(pending[k])| == 0 {
        assert pending[k] == pending[1..][k - 1];
      }
    }
  }

  /** The scan only ever removes entries: every socket left was listed before. */
  lemma {:induction false} ScanAddsNothing(pending: seq<Handle>, registry: Registry, io: Io, env: Env)
    ensures forall x :: x in Scan(pending, registry, io, env).registry.clients ==> x in registry.clients
    decreases |pending|
  {
    if pending != [] {
      var x := pending[0];
      if |io.recv(x)| == 0 {
        var next := AfterVisit(x, registry, io, env);
        ScanAddsNothing(pending[1..], next, io, env);
        UnsetKeepsOnlyListed(registry.clients, x);
      }
    }
  }

  /** Unsetting an entry never brings in a socket that was not listed. */
  lemma {:induction false} UnsetKeepsOnlyListed(s: seq<Handle>, h: Handle)
    ensures forall x :: x in Unset(s, h) ==> x in s
  {
    if h in s {
      WithoutRemovesOneEntry(s, h);
    }
  }

  /** No socket among the first `k + 1` entries of `s` has data. */
  ghost predicate NoDataThrough(s: seq<Handle>, k: int, io: Io)
  {
    forall j :: 0 <= j <= k && j < |s| ==> |io.recv(s[j])| == 0
  }

  /**
   * Every socket the scan visits before the first message, whose read
   * fails, is gone from the list when the scan ends without halting.
   */
  lemma {:induction false} ScanRemovesEveryFailedRead(pending: seq<Handle>, registry: Registry, io: Io, env: Env)
    requires Distinct(registry.clients) && Distinct(pending)
    requires forall x :: x in pending ==> x in registry.clients
    ensures var done := Scan(pending, registry, io, env);
      done.status != Halted ==>
        forall k :: 0 <= k < |pending| && io.readFails(pending[k]) && NoDataThrough(pending, k, io) ==>
          pending[k] !in done.registry.clients
    decreases |pending|
  {
    if pending != [] {
      var x := pending[0];
      var rest := pending[1..];
      var done := Scan(pending, registry, io, env);
      assert Distinct(rest) && x !in rest by {
        forall j | 0 <= j < |rest| ensures rest[j] != x {
          assert rest[j] == pending[j + 1];
        }
        forall i, j | 0 <= i < j < |rest| ensures rest[i] != rest[j] {
          assert rest[i] == pending[i + 1] && rest[j] == pending[j + 1];
        }
      }
      if |io.recv(x)| == 0 && done.status != Halted {
        var next := AfterVisit(x, registry, io, env);
        if io.readFails(x) {
          WithoutMembers(registry.clients, x);
        }
        assert Distinct(next.clients) && (forall y :: y in rest ==> y in next.clients);
        assert x !in next.clients || !io.readFails(x);
        ScanRemovesEveryFailedRead(rest, next, io, env);
        ScanAddsNothing(rest, next, io, env);
        forall k | 1 <= k < |pending| && io.readFails(pending[k]) && NoDataThrough(pending, k, io)
          ensures pending[k] !in done.registry.clients
        {
          assert pending[k] == rest[k - 1];
          forall j | 0 <= j <= k - 1 ensures |io.recv(rest[j])| == 0 {
            assert rest[j] == pending[j + 1];
          }
        }
      }
    }
  }

  /** The sockets a pass visits are the readable clients after the listener, in list order. */
  lemma SnapshotIsReadableClients(listener: Handle, clients: seq<Handle>, readable: Handle -> bool)
    requires WellFormed(clients, listener)
    ensures Snapshot(listener, clients, readable) == Selected(clients[1..], readable)
    ensures listener in Selected(clients, readable) <==> readable(listener)
  {
    var rest := clients[1..];
    assert listener !in rest by {
      forall j | 0 <= j < |rest| ensures rest[j] != listener {
        assert rest[j] == clients[j + 1];
      }
    }
    assert clients == [listener] + rest;
  }

  lemma TailDistinct(s: seq<Handle>)
    requires |s| >= 1 && Distinct(s)
    ensures Distinct(s[1..])
  {
    forall i, j | 0 <= i < j < |s| - 1 ensures s[1..][i] != s[1..][j] {
      assert s[1..][i] == s[i + 1] && s[1..][j] == s[j + 1];
    }
  }

  /**
   * A whole pass keeps the listener at index 0 and the list free of
   * repeats, provided the accepted socket is new; every search for a
   * departing socket finds it; the message it handles comes from a client
   * that was already registered, never the listener or the socket accepted
   * in the same pass.
   */
  lemma PassKeepsShape(listener: Handle, registry: Registry, io: Io, env: Env)
    requires WellFormed(registry.clients, listener) && io.accepted !in registry.clients
    ensures WellFormed(Pass(listener, registry, io, env).registry.clients, listener)
    ensures var entered := Opening(listener, registry, io, env);
      entered.status != Halted ==> FindsEveryDeparture(Snapshot(listener, registry.clients, io.readable), entered.registry, io, env)
    ensures forall h :: Pass(listener, registry, io, env).status == Handled(h) ==>
      h in registry.clients && h != listener
  {
    var pending := Snapshot(listener, registry.clients, io.readable);
    var entered := Opening(listener, registry, io, env);
    SnapshotIsReadableClients(listener, registry.clients, io.readable);
    TailDistinct(registry.clients);
    SelectedDistinct(registry.clients[1..], io.readable);
    assert listener !in pending;
    if entered.status != Halted {
      assert WellFormed(entered.registry.clients, listener);
      ScanRemovesOnlyFailedReads(pending, entered.registry, io, env, listener);
      forall h | Scan(pending, entered.registry, io, env).status == Handled(h)
        ensures h in registry.clients && h != listener
      {
        ScanHandlesFirstMessage(pending, entered.registry, io, env, h);
      }
    }
  }

  /**
   * The message a pass handles is the one of the first client in list
   * order, after the listener, that `socket_select` kept and that has data:
   * every readable client before it had none.
   */
  lemma PassServesFirstReadyClient(listener: Handle, registry: Registry, io: Io, env: Env, h: Handle)
    requires WellFormed(registry.clients, listener) && io.accepted !in registry.clients
    requires Pass(listener, registry, io, env).status == Handled(h)
    ensures exists q ::
      && 1 <= q < |registry.clients| && registry.clients[q] == h && io.readable(h) && |io.recv(h)| >= 1
      && (forall p :: 1 <= p < q && io.readable(registry.clients[p]) ==> |io.recv(registry.clients[p])| == 0)
  {
    var clients := registry.clients;
    var pending := Snapshot(listener, clients, io.readable);
    var entered := Opening(listener, registry, io, env);
    assert entered.status != Halted;
    SnapshotIsReadableClients(listener, clients, io.readable);
    TailDistinct(clients);
    SelectedDistinct(clients[1..], io.readable);
    ScanHandlesFirstMessage(pending, entered.registry, io, env, h);
    var k :| 0 <= k < |pending| && pending[k] == h && |io.recv(h)| >= 1
      && (forall j :: 0 <= j < k ==> |io.recv(pending[j])| == 0);
    var q := ClientOfSelection(clients, io, k);
  }

  /**
   * Entry `k` of the selection after the listener is some client `q`, and
   * when no entry before `k` has data, no readable client before `q` has any.
   */
  lemma ClientOfSelection(clients: seq<Handle>, io: Io, k: int) returns (q: int)
    requires |clients| >= 1 && Distinct(Selected(clients[1..], io.readable))
    requires 0 <= k < |Selected(clients[1..], io.readable)|
    requires forall j :: 0 <= j < k ==> |io.recv(Selected(clients[1..], io.readable)[j])| == 0
    ensures 1 <= q < |clients| && clients[q] == Selected(clients[1..], io.readable)[k] && io.readable(clients[q])
    ensures forall p :: 1 <= p < q && io.readable(clients[p]) ==> |io.recv(clients[p])| == 0
  {
    var rest := clients[1..];
    var pending := Selected(rest, io.readable);
    var h := pending[k];
    assert h in pending;
    var i :| 0 <= i < |rest| && rest[i] == h;
    SelectedIndex(rest, io.readable, i);
    assert k == |Selected(rest[..i], io.readable)|;
    q := i + 1;
    forall p | 1 <= p < q && io.readable(clients[p])
      ensures |io.recv(clients[p])| == 0
    {
      assert clients[p] == rest[p - 1];
      SelectedEarlier(rest, io.readable, i, p - 1);
    }
  }

  /**
   * A pass that neither halts nor relays a message found no data: every
   * readable client after the listener had none. So whenever a readable
   * client has data waiting, the pass relays a message (or halts).
   */
  lemma PassIdleFoundNoData(listener: Handle, registry: Registry, io: Io, env: Env)
    requires WellFormed(registry.clients, listener)
    requires Pass(listener, registry, io, env).status == Idle
    ensures forall q :: 1 <= q < |registry.clients| && io.readable(registry.clients[q]) ==>
      |io.recv(registry.clients[q])| == 0
  {
    var clients := registry.clients;
    var pending := Snapshot(listener, clients, io.readable);
    var entered := Opening(listener, registry, io, env);
    SnapshotIsReadableClients(listener, clients, io.readable);
    ScanIdleNoData(pending, entered.registry, io, env);
    forall q | 1 <= q < |clients| && io.readable(clients[q]) ensures |io.recv(clients[q])| == 0 {
      assert clients[q] == clients[1..][q - 1];
      assert clients[q] in pending;
    }
  }

  /**
   * A pass that does not halt leaves out every readable client whose read
   * failed and that came, in list order, before the first client with data.
   */
  lemma PassRemovesFailedReads(listener: Handle, registry: Registry, io: Io, env: Env)
    requires WellFormed(registry.clients, listener) && io.accepted !in registry.clients
    ensures var done := Pass(listener, registry, io, env);
      done.status != Halted ==>
        forall q :: 1 <= q < |registry.clients| && io.readFails(registry.clients[q]) && ReadyWithoutData(registry.clients, q, io) ==>
          registry.clients[q] !in done.registry.clients
  {
    var clients := registry.clients;
    var rest := clients[1..];
    var pending := Snapshot(listener, clients, io.readable);
    var entered := Opening(listener, registry, io, env);
    var done := Pass(listener, registry, io, env);
    if done.status != Halted {
      SnapshotIsReadableClients(listener, clients, io.readable);
      TailDistinct(clients);
      SelectedDistinct(rest, io.readable);
      assert Distinct(entered.registry.clients) by {
        assert WellFormed(entered.registry.clients, listener);
      }
      assert forall x :: x in pending ==> x in entered.registry.clients;
      ScanRemovesEveryFailedRead(pending, entered.registry, io, env);
      forall q | 1 <= q < |clients| && io.readFails(clients[q]) && ReadyWithoutData(clients, q, io)
        ensures clients[q] !in done.registry.clients
      {
        var k := QuietPrefixOfSelection(clients, io, q);
      }
    }
  }

  /**
   * Client `q` is readable, and neither it nor any readable client before
   * it (after the listener) has data.
   */
  ghost predicate ReadyWithoutData(clients: seq<Handle>, q: int, io: Io)
  {
    && 1 <= q < |clients| && io.readable(clients[q])
    && forall p :: 1 <= p <= q ==> io.readable(clients[p]) ==> |io.recv(clients[p])| == 0
  }

  /** A ready client without data, and every one before it, sits in a quiet prefix of the selection. */
  lemma QuietPrefixOfSelection(clients: seq<Handle>, io: Io, q: int) returns (k: nat)
    requires ReadyWithoutData(clients, q, io)
    ensures var pending := Selected(clients[1..], io.readable);
      k < |pending| && pending[k] == clients[q] && NoDataThrough(pending, k, io)
  {
    var rest := clients[1..];
    var pending := Selected(rest, io.readable);
    assert clients[q] == rest[q - 1];
    SelectedIndex(rest, io.readable, q - 1);
    SelectedSplits(rest, q - 1, io.readable);
    var before := Selected(rest[..q - 1], io.readable);
    k := |before|;
    forall j | 0 <= j <= k && j < |pending| ensures |io.recv(pending[j])| == 0 {
      if j < k {
        var y := before[j];
        assert pending[j] == y;
        assert y in rest[..q - 1] && io.readable(y);
        var p :| 0 <= p < q - 1 && rest[..q - 1][p] == y;
        assert clients[p + 1] == y;
      }
    }
  }

  /** A readable entry `q` sits in the selection right after the selection of the entries before it. */
  lemma SelectedIndex(s: seq<Handle>, readable: Handle -> bool, q: nat)
    requires q < |s| && readable(s[q])
    ensures |Selected(s[..q], readable)| < |Selected(s, readable)|
    ensures Selected(s, readable)[|Selected(s[..q], readable)|] == s[q]
  {
    SelectedSplits(s, q, readable);
    assert s[q..] == [s[q]] + s[q + 1..];
  }

  /** A readable entry before entry `q` comes before it in the selection. */
  lemma SelectedEarlier(s: seq<Handle>, readable: Handle -> bool, q: nat, p: nat)
    requires p < q < |s| && readable(s[p])
    ensures |Selected(s[..q], readable)| <= |Selected(s, readable)|
    ensures exists j :: 0 <= j < |Selected(s[..q], readable)| && Selected(s, readable)[j] == s[p]
  {
    SelectedSplits(s, q, readable);
    assert s[p] in s[..q];
    var before := Selected(s[..q], readable);
    var j :| 0 <= j < |before| && before[j] == s[p];
    assert Selected(s, readable)[j] == before[j];
  }

  // ---------------------------------------------------------------------------
  // The server object
  // ---------------------------------------------------------------------------

  class WebSocketServer {
    /** The listening socket, `$socketResource` of `run`. */
    const listener: Handle
    /** `$this->clientSocketArray`. */
    var clients: seq<Handle>
    /** Every `socket_write` issued so far. */
    var outbox: seq<Write>

    ghost predicate Valid()
      reads this
    {
      WellFormed(clients, listener)
    }

    /** The start of `run`: the list holds the listening socket alone (websocket.php:106). */
    constructor (listener: Handle)
      ensures this.listener == listener && clients == [listener] && outbox == []
      ensures Valid()
    {
      this.listener := listener;
      clients := [listener];
      outbox := [];
    }

    /** `send`: write the frame to every entry of the list, the listener included. */
    method Send(frame: seq<byte>)
      modifies this
      ensures clients == old(clients)
      ensures outbox == old(outbox) + FanOut(clients, frame)
    {
      for i := 0 to |clients|
        invariant clients == old(clients)
        invariant outbox == old(outbox) + FanOut(clients[..i], frame)
      {
        outbox := outbox + [Push(clients[i], frame)];
        assert clients[..i + 1][..i] == clients[..i];
      }
      assert clients[..|clients|] == clients;
    }

    /**
     * `$this->clientSocketArray[] = $newSocket`, the handshake, and the welcome
     * broadcast. This is a step of `Tick`, which calls it only with a socket
     * not yet listed; `Tick`'s contract carries `Valid()` across it.
     */
    method Accept(io: Io, env: Env) returns (status: Status)
      modifies this
      ensures Outcome(Registry(clients, outbox), status) == Admit(old(Registry(clients, outbox)), io, env)
    {
      clients := clients + [io.accepted];
      var reply := Handshake.DoHandshake(io.request, env.host, env.port, env.digest);
      outbox := outbox + [Reply(io.accepted, reply)];
      var ack := Notices.NewConnectionAck(io.peer(io.accepted), env.jsonEncode);
      if ack.Err? {
        return Halted;
      }
      Send(ack.value);
      status := Idle;
    }

    /**
     * A failed read: announce the departure to every entry, then unset the
     * socket. This is a step of `Tick`, which calls it only for a listed client
     * other than the listener (`FindsEveryDeparture`); `Tick`'s contract
     * carries `Valid()` across it.
     */
    method Disconnect(h: Handle, io: Io, env: Env) returns (status: Status)
      modifies this
      ensures Outcome(Registry(clients, outbox), status) == Depart(h, old(Registry(clients, outbox)), io, env)
    {
      var ack := Notices.ConnectionDisconnectAck(io.peer(h), env.jsonEncode);
      if ack.Err? {
        return Halted;
      }
      Send(ack.value);
      clients := Unset(clients, h);  // `array_search`, then `unset` of the key it returns
      status := Idle;
    }

    /** A socket with data: unseal its frame and send the chat line to every entry. */
    method Deliver(h: Handle, io: Io, env: Env) returns (status: Status)
      modifies this
      ensures Outcome(Registry(clients, outbox), status) == Relay(h, old(Registry(clients, outbox)), io, env)
    {
      var message := Frame.Unseal(io.recv(h));
      var (user, text) := env.chatFields(message);
      var chat := Notices.CreateChatBoxMessage(user, text, env.jsonEncode);
      if chat.Err? {
        return Halted;
      }
      Send(chat.value);
      status := Handled(h);
    }

    /**
     * The `foreach` over the snapshot: stop at the first socket with data
     * (`break 2`), let a socket whose read fails depart, skip the others.
     */
    method Visit(ready: seq<Handle>, io: Io, env: Env) returns (status: Status)
      modifies this
      ensures Outcome(Registry(clients, outbox), status) == Scan(ready, old(Registry(clients, outbox)), io, env)
    {
      ghost var start := Registry(clients, outbox);
      for i := 0 to |ready|
        invariant Scan(ready, start, io, env) == Scan(ready[i..], Registry(clients, outbox), io, env)
      {
        var h := ready[i];
        assert ready[i..][1..] == ready[i + 1..];
        if |io.recv(h)| >= 1 {
          status := Deliver(h, io, env);
          return;
        }
        if io.readFails(h) {
          status := Disconnect(h, io, env);
          if status == Halted {
            return;
          }
        }
      }
      status := Idle;
    }

    /**
     * One iteration of the `while (true)` loop of `run`: select, accept when
     * the listener is readable, then visit the readable clients of the
     * snapshot until one yields a message.
     */
    method Tick(io: Io, env: Env) returns (status: Status)
      requires Valid() && io.accepted !in clients
      modifies this
      ensures Outcome(Registry(clients, outbox), status) == Pass(listener, old(Registry(clients, outbox)), io, env)
      ensures Valid()
      ensures forall h :: status == Handled(h) ==> h in old(clients) && h != listener
    {
      PassKeepsShape(listener, Registry(clients, outbox), io, env);
      var ready := Selected(clients, io.readable);
      if listener in ready {
        status := Accept(io, env);
        if status == Halted {
          return;
        }
        ready := Without(ready, listener);
      }
      status := Visit(ready, io, env);
    }
  }
}
