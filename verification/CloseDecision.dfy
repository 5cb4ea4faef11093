/**
  Which handled requests close the connection: stated over the lines of their messages, for
  every event of every run, on plain and on TLS connections.
*/
module CloseDecision {
  import opened Common
  import opened Text
  import opened Requests
  import opened Parsing
  import opened Chunking
  import opened Grammar
  import opened MessageFraming
  import RequestFraming
  import opened Server
  import SecureServer
  import Tls

  /** The last value of the Connection fields of a message, in any capitalisation, or nothing. */
  function LastConnection(lines: seq<string>): string {
    var values := ValuesOf(lines, "Connection");
    if values == [] then "" else values[|values| - 1]
  }

  /** A message closes if it says so, or if it is HTTP/1.0 and does not ask to be kept. */
  ghost predicate Closes(msg: Message) {
    || LastConnection(msg.headerLines) == "close"
    || (LastConnection(msg.headerLines) != "Keep-Alive"
        && exists name, target :: IsRequestLine(msg.requestLine, name, target, "HTTP/1.0"))
  }

  /** The event of a message of the grammar, closing exactly if the message does. */
  ghost predicate DecidedBy(e: Event, msg: Message, max: nat) {
    e.Handled? && Valid(msg, max) && e.request == Meaning(msg) && (e.close <==> Closes(msg))
  }

  ghost predicate Decided(e: Event, max: nat) {
    e.Handled? ==> exists msg :: DecidedBy(e, msg, max)
  }

  ghost predicate AllDecided(events: seq<Event>, max: nat) {
    forall i | 0 <= i < |events| :: Decided(events[i], max)
  }

  lemma ConnectionIs(msg: Message)
    requires forall i | 0 <= i < |msg.headerLines| :: ':' in msg.headerLines[i]
    ensures HeaderOf(Meaning(msg).headers, "Connection") == LastConnection(msg.headerLines)
  {
    RequestFraming.LastValueKept(map[], msg.headerLines, "Connection");
  }

  lemma VersionIs(msg: Message, max: nat)
    requires Valid(msg, max)
    ensures Meaning(msg).version == HTTP10
      <==> exists name, target :: IsRequestLine(msg.requestLine, name, target, "HTTP/1.0")
  {
    var name, target, version :| IsRequestLine(msg.requestLine, name, target, version);
    RequestLineBuilt(FRESH, msg.requestLine, name, target, version);
    if n, t :| IsRequestLine(msg.requestLine, n, t, "HTTP/1.0") {
      RequestLineBuilt(FRESH, msg.requestLine, n, t, "HTTP/1.0");
    }
  }

  lemma HandledDecided(msg: Message, max: nat)
    requires Valid(msg, max)
    ensures Decided(HandledEvent(Meaning(msg)), max)
  {
    ConnectionIs(msg);
    VersionIs(msg, max);
    assert DecidedBy(HandledEvent(Meaning(msg)), msg, max);
  }

  lemma DecidedAppend(events: seq<Event>, more: seq<Event>, max: nat)
    requires AllDecided(events, max) && AllDecided(more, max)
    ensures AllDecided(events + more, max)
  {}

  lemma MessageDecided(c: Conn, max: nat, received: string, cuts: seq<Cut>, text: string,
                       msgs: seq<Message>, read: string, chunk: string)
    requires Account(c, max, received, cuts, text, msgs, read) && AllDecided(c.events, max)
    ensures AllDecided(AfterMessage(c, max, chunk).events, max)
    ensures AllDecided(AfterThrowing(c, max, chunk).events, max)
  {
    ArriveAccounts(c, max, received, cuts, text, msgs, read, chunk);
    EventsDecided(c, max, read, chunk);
  }

  lemma EventsDecided(c: Conn, max: nat, read: string, chunk: string)
    requires c.m.state != GotAll && AllDecided(c.events, max)
    requires Aborts(c.m.Plus(chunk)) || Reached(c.m.Plus(chunk), max, read)
    ensures AllDecided(AfterMessage(c, max, chunk).events, max)
    ensures AllDecided(AfterThrowing(c, max, chunk).events, max)
  {
    var m := c.m.Plus(chunk);
    if !Aborts(m) {
      var r := Parse(m, max);
      if r.v == Done {
        ParsedDecided(m, max, read);
        HandledAppended(c.events, HandledEvent(r.m.request), max);
      } else if r.v == Bad {
        DecidedAppend(c.events, [Sent(ErrorReply(r.m.errorStatus)), Shutdown], max);
      }
    }
  }

  lemma ParsedDecided(m: Machine, max: nat, read: string)
    requires Reached(m, max, read) && Parse(m, max).v == Done
    ensures Decided(HandledEvent(Parse(m, max).m.request), max)
  {
    SameParse(m, max, read);
    var msg := DoneMessage(read + m.input, max);
    HandledDecided(msg, max);
  }

  lemma HandledAppended(events: seq<Event>, e: Event, max: nat)
    requires AllDecided(events, max) && Decided(e, max)
    ensures AllDecided(events + [e], max) && AllDecided(events + [e, Sent(HTTP400), Shutdown], max)
  {}

  lemma {:induction false} ServeDecided(c: Conn, max: nat, received: string, cuts: seq<Cut>, text: string,
                                        msgs: seq<Message>, read: string, chunks: seq<string>)
    requires Account(c, max, received, cuts, text, msgs, read) && AllDecided(c.events, max)
    ensures AllDecided(Serve(c, max, chunks).events, max)
    decreases |chunks|
  {
    if chunks != [] {
      var cuts', text', msgs', read' := OnMessageAccounts(c, max, received, cuts, text, msgs, read, chunks[0]);
      MessageDecided(c, max, received, cuts, text, msgs, read, chunks[0]);
      ServeDecided(AfterMessage(c, max, chunks[0]), max, received + chunks[0], cuts', text', msgs', read', chunks[1..]);
    }
  }

  /** In every run every handled request closes the connection exactly if its message does. */
  lemma CloseIff(max: nat, chunks: seq<string>)
    ensures AllDecided(Serve(OPENED, max, chunks).events, max)
  {
    OpenedAccounts(max);
    ServeDecided(OPENED, max, "", [], "", [], "", chunks);
  }

  lemma {:induction false} SecureRunDecided(h: SecureServer.Https, max: nat, cuts: seq<Cut>, text: string,
                                            msgs: seq<Message>, read: string, events: seq<SecureServer.Event>)
    requires Account(h.conn, max, h.ssl.decrypted, cuts, text, msgs, read) && AllDecided(h.conn.events, max)
    ensures AllDecided(SecureServer.Run(h, max, events).conn.events, max)
    decreases |events|
  {
    if events != [] && !h.conn.aborted {
      var e := events[0];
      var cuts', text', msgs', read' := SecureServer.NextAccounts(h, max, cuts, text, msgs, read, e);
      if e.Arrived? {
        MessageDecided(h.conn, max, h.ssl.decrypted, cuts, text, msgs, read, SecureServer.Plain(h, e.ciphertext));
      }
      SecureRunDecided(SecureServer.AfterEvent(h, max, e), max, cuts', text', msgs', read', events[1..]);
    }
  }

  /** The same over TLS. */
  lemma SecureCloseIff(hasSsl: bool, script: Tls.Script<char>, max: nat, events: seq<SecureServer.Event>)
    ensures AllDecided(SecureServer.Run(SecureServer.Opened(hasSsl, script), max, events).conn.events, max)
  {
    OpenedAccounts(max);
    SecureRunDecided(SecureServer.Opened(hasSsl, script), max, [], "", [], "", events);
  }
}
