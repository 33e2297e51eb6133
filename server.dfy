/**
  server.cpp: the per-connection framing table. Every connected socket has
  a byte buffer; each read appends to it, and once the whole buffer parses
  as one JSON document it is cleared and exactly one response is written
  back. Sockets are abstract connection ids, the JSON parser and serialiser
  are parameters, and whether a socket is open is given with each event.
*/
module Server {
  import opened Platform
  import opened Json
  import opened Protocol
  import opened Database
  import opened Handlers

  /** A connected socket, by identity. */
  type Connection = nat

  /** m_clients[client] as QMap::operator[] reads it: an absent client has an empty buffer. */
  function BufferOf(clients: map<Connection, Bytes>, c: Connection): Bytes {
    if c in clients then clients[c] else []
  }

  /**
    One read on connection c: the buffer the parser sees, the table after
    the read, and the request to handle, if the buffer parsed. A buffer that
    does not parse is kept whole for the next read.
  */
  function Receive(clients: map<Connection, Bytes>, c: Connection, incoming: Bytes,
                   parse: Bytes -> Option<JsonValue>): (r: (map<Connection, Bytes>, Option<Request>))
    ensures r.0.Keys == clients.Keys + {c}
    ensures forall d | d in clients && d != c :: r.0[d] == clients[d]
    ensures r.1.Some? <==> parse(BufferOf(clients, c) + incoming).Some?
    ensures r.1.Some? ==> r.0[c] == [] && r.1.value == Request.FromJson(ToObject(parse(BufferOf(clients, c) + incoming).value))
    ensures r.1.None? ==> r.0[c] == BufferOf(clients, c) + incoming
  {
    var buffer := BufferOf(clients, c) + incoming;
    match parse(buffer)
    case None => (clients[c := buffer], None)
    case Some(doc) => (clients[c := []], Some(Request.FromJson(ToObject(doc))))
  }

  /**
    A document split over two reads is handled once it is complete: when
    the first part does not parse, the second read sees both parts together.
  */
  lemma SplitDocument(clients: map<Connection, Bytes>, c: Connection, part1: Bytes, part2: Bytes,
                      parse: Bytes -> Option<JsonValue>)
    requires parse(BufferOf(clients, c) + part1).None?
    ensures var after := Receive(clients, c, part1, parse).0;
      Receive(after, c, part2, parse) == Receive(clients, c, part1 + part2, parse)
  {
    var after := Receive(clients, c, part1, parse).0;
    assert BufferOf(after, c) + part2 == BufferOf(clients, c) + (part1 + part2);
    assert after[c := BufferOf(after, c) + part2] == clients[c := BufferOf(clients, c) + (part1 + part2)];
    assert after[c := []] == clients[c := []];
  }

  /** A read that completes a document leaves an empty buffer, and the next read starts afresh. */
  lemma ParsedBufferRestarts(clients: map<Connection, Bytes>, c: Connection, part1: Bytes, part2: Bytes,
                             parse: Bytes -> Option<JsonValue>)
    requires parse(BufferOf(clients, c) + part1).Some?
    ensures var after := Receive(clients, c, part1, parse).0;
      BufferOf(after, c) == [] &&
      Receive(after, c, part2, parse).1.Some? == parse(part2).Some?
  {
    var after := Receive(clients, c, part1, parse).0;
    assert BufferOf(after, c) + part2 == part2;
  }

  /**
    onReadyRead on the table, the store and the writes so far: a read from
    no socket changes nothing; otherwise the read goes through Receive, and
    a parsed request is dispatched and its response written when the socket
    is open.
  */
  function ReadyRead(clients: map<Connection, Bytes>, s: Store, sent: seq<(Connection, Bytes)>,
                     sender: Option<Connection>, incoming: Bytes, isOpen: bool,
                     parse: Bytes -> Option<JsonValue>, serialize: JsonObject -> Bytes, env: Env)
    : (r: (map<Connection, Bytes>, Store, seq<(Connection, Bytes)>))
    ensures sender.None? ==> r == (clients, s, sent)
    ensures sender.Some? ==> r.0 == Receive(clients, sender.value, incoming, parse).0
    ensures sender.Some? && Receive(clients, sender.value, incoming, parse).1.None? ==> r.1 == s && r.2 == sent
    ensures sender.Some? && Receive(clients, sender.value, incoming, parse).1.Some? ==>
      r.1 == Dispatch(Receive(clients, sender.value, incoming, parse).1.value, s, env).1 &&
      r.2 == sent + (if isOpen then [(sender.value, serialize(Dispatch(Receive(clients, sender.value, incoming, parse).1.value, s, env).0.ToJson()))] else [])
  {
    match sender
    case None => (clients, s, sent)
    case Some(c) =>
      var (table, request) := Receive(clients, c, incoming, parse);
      match request
      case None => (table, s, sent)
      case Some(req) =>
        var (response, s') := Dispatch(req, s, env);
        (table, s', sent + (if isOpen then [(c, serialize(response.ToJson()))] else []))
  }

  /** A read from one client leaves every other client's buffer as it was, and writes only to that client. */
  lemma ReadyReadIsolated(clients: map<Connection, Bytes>, s: Store, sent: seq<(Connection, Bytes)>,
                          c: Connection, incoming: Bytes, isOpen: bool,
                          parse: Bytes -> Option<JsonValue>, serialize: JsonObject -> Bytes, env: Env)
    ensures var r := ReadyRead(clients, s, sent, Some(c), incoming, isOpen, parse, serialize, env);
      (forall d | d in clients && d != c :: d in r.0 && r.0[d] == clients[d]) &&
      sent <= r.2 && |r.2| <= |sent| + 1 &&
      (forall i | |sent| <= i < |r.2| :: r.2[i].0 == c)
  {
  }

  /**
    Server: listens for connections, keeps one buffer per client and hands
    every complete request to its RequestHandler.
  */
  class Server {
    const handler: RequestHandler
    /** QJsonDocument::fromJson: the document, or None on a parse error. */
    const parse: Bytes -> Option<JsonValue>
    /** QJsonDocument::toJson of an object. */
    const serialize: JsonObject -> Bytes
    /** m_server->isListening(). */
    var listening: bool
    /** m_clients: the buffer of every connected client. */
    var clients: map<Connection, Bytes>
    /** Every client->write, in order: the connection and the bytes written. */
    var sent: seq<(Connection, Bytes)>
    /** The clients stop() asked to disconnect. */
    var hungUp: set<Connection>

    constructor (db: DatabaseSingleton, env: Env, parse: Bytes -> Option<JsonValue>, serialize: JsonObject -> Bytes)
      ensures handler.auth.db == db && handler.auth.env == env
      ensures this.parse == parse && this.serialize == serialize
      ensures !listening && clients == map[] && sent == [] && hungUp == {}
    {
      handler := new RequestHandler(db, env);
      this.parse := parse;
      this.serialize := serialize;
      listening := false;
      clients := map[];
      sent := [];
      hungUp := {};
    }

    /** isRunning(). */
    function IsRunning(): bool
      reads this
    {
      listening
    }

    /** getClientCount(). */
    function ClientCount(): nat
      reads this
    {
      |clients|
    }

    /**
      start(port): true at once when already listening; otherwise the
      outcome of listening on the port, given as listenSucceeds.
    */
    method Start(port: int, listenSucceeds: bool) returns (ok: bool)
      modifies this
      ensures old(listening) ==> ok && listening
      ensures !old(listening) ==> ok == listenSucceeds && listening == listenSucceeds
      ensures clients == old(clients) && sent == old(sent) && hungUp == old(hungUp)
    {
      if listening {
        return true;
      }
      listening := listenSucceeds;
      ok := listenSucceeds;
    }

    /**
      stop(): when listening, ask every client to disconnect, empty the
      table and stop listening; otherwise nothing happens.
    */
    method Stop()
      modifies this
      ensures old(listening) ==> !listening && clients == map[] && hungUp == old(hungUp) + old(clients).Keys
      ensures !old(listening) ==> listening == old(listening) && clients == old(clients) && hungUp == old(hungUp)
      ensures sent == old(sent)
    {
      if listening {
        var pending := clients.Keys;
        while pending != {}
          invariant pending <= clients.Keys
          invariant hungUp == old(hungUp) + (clients.Keys - pending)
          invariant clients == old(clients) && listening && sent == old(sent)
          decreases |pending|
        {
          var client :| client in pending;
          hungUp := hungUp + {client};
          pending := pending - {client};
        }
        clients := map[];
        listening := false;
      }
    }

    /** onNewConnection: the new client starts with an empty buffer. */
    method OnNewConnection(client: Connection)
      modifies this
      ensures clients == old(clients)[client := []]
      ensures client !in old(clients) ==> ClientCount() == old(ClientCount()) + 1
      ensures listening == old(listening) && sent == old(sent) && hungUp == old(hungUp)
    {
      clients := clients[client := []];
    }

    /**
      onClientDisconnected: the sender, when it is a socket, leaves the
      table; no other client is touched.
    */
    method OnClientDisconnected(sender: Option<Connection>)
      modifies this
      ensures sender.None? ==> clients == old(clients)
      ensures sender.Some? ==> clients == old(clients) - {sender.value}
      ensures sender.Some? && sender.value in old(clients) ==> ClientCount() == old(ClientCount()) - 1
      ensures listening == old(listening) && sent == old(sent) && hungUp == old(hungUp)
    {
      if sender.Some? {
        clients := clients - {sender.value};
      }
    }

    /**
      onReadyRead: append what arrived to the sender's buffer; when the buffer
      then parses, clear it, handle the request and send the response.
    */
    method OnReadyRead(sender: Option<Connection>, incoming: Bytes, isOpen: bool)
      modifies this, handler.auth.db
      ensures (clients, handler.auth.db.State(), sent) ==
        ReadyRead(old(clients), old(handler.auth.db.State()), old(sent), sender, incoming, isOpen, parse, serialize, handler.auth.env)
      ensures listening == old(listening) && hungUp == old(hungUp)
    {
      if sender.Some? {
        var client := sender.value;
        ghost var received := Receive(clients, client, incoming, parse);
        var buffer := (if client in clients then clients[client] else []) + incoming;
        clients := clients[client := buffer];
        var document := parse(clients[client]);
        assert buffer == BufferOf(old(clients), client) + incoming;
        if document.Some? {
          clients := clients[client := []];
          var request := Request.FromJson(ToObject(document.value));
          assert parse(buffer) == document;
          assert clients == old(clients)[client := []];
          assert received == (clients, Some(request));
          ghost var before := handler.auth.db.State();
          var response := handler.HandleRequest(request);
          assert (response, handler.auth.db.State()) == Dispatch(request, before, handler.auth.env);
          SendResponse(sender, isOpen, response);
          assert (response, handler.auth.db.State()) == Dispatch(request, before, handler.auth.env);
          assert sent == old(sent) + (if isOpen then [(client, serialize(response.ToJson()))] else []);
        } else {
          assert received == (clients, None);
        }
      }
    }

    /** sendResponse: write the serialised response, only to a socket that is open. */
    method SendResponse(client: Option<Connection>, isOpen: bool, response: Response)
      modifies this
      ensures client.Some? && isOpen ==> sent == old(sent) + [(client.value, serialize(response.ToJson()))]
      ensures !(client.Some? && isOpen) ==> sent == old(sent)
      ensures listening == old(listening) && clients == old(clients) && hungUp == old(hungUp)
    {
      if client.Some? && isOpen {
        var jsonData := serialize(response.ToJson());
        sent := sent + [(client.value, jsonData)];
      }
    }
  }
}
