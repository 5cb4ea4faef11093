/**
  The TLS pump between the HTTP server and OpenSSL. What OpenSSL answers is an arbitrary
  script fixed in advance: a theorem for all scripts is a theorem for every behaviour of
  the library. Bytes are of any type `T`, so that a statement may tell apart bytes that
  happen to have the same value.
*/
module Tls {
  import opened Common

  const INT_MAX: nat := 0x7fff_ffff
  const MAX_SPINS: nat := 65536
  const BUFFER_SIZE: nat := 4096

  datatype SslState = Handshaking | Established | Error

  /** `SSL_write`: at most `n` bytes are accepted, at least one. */
  datatype WriteAnswer = Accept(n: nat) | WriteWant | ZeroReturn | WriteFatal

  datatype ReadAnswer<T> = Data(bytes: seq<T>) | End | ReadWant | ReadFatal

  datatype HandshakeAnswer = Complete | HandshakeWant | HandshakeFatal

  /**
    What OpenSSL will answer, call by call, and the ciphertext that each call of `SSL_write`,
    `SSL_read` or `SSL_do_handshake` leaves in the write BIO. After the script it wants more
    input, produces nothing, and the read BIO takes everything.
  */
  datatype Script<T> = Script(
    writes: seq<WriteAnswer>,
    readings: seq<ReadAnswer<T>>,
    handshakes: seq<HandshakeAnswer>,
    bioWrites: seq<int>,
    ciphertexts: seq<seq<T>>)

  /**
    The connection. `accepted` is what `SSL_write` took, `fed` what `BIO_write` put into the
    read BIO, `retrieved` what was taken from the TCP buffer `tcp`. `produced` is all
    ciphertext that OpenSSL wrote, `writeBio` the part still in the write BIO and `wire` what
    was given to the TCP connection. `intact` says that no plaintext was given up: no close
    notification, fatal error or spin limit so far.
  */
  datatype Ssl<T> = Ssl(
    hasSsl: bool,
    state: SslState,
    pending: seq<T>,
    accepted: seq<T>,
    tcp: seq<T>,
    fed: seq<T>,
    retrieved: seq<T>,
    decrypted: seq<T>,
    produced: seq<T>,
    writeBio: seq<T>,
    wire: seq<T>,
    shutdown: bool,
    intact: bool,
    script: Script<T>)

  function Min(a: nat, b: nat): nat {
    if a < b then a else b
  }

  // ---- one call of OpenSSL -------------------------------------------------------------

  /** How many of `chunk` bytes an accepting answer takes. */
  function Taken(n: nat, chunk: nat): (k: nat)
    requires chunk > 0
    ensures 1 <= k <= chunk
  {
    if n == 0 then 1 else Min(n, chunk)
  }

  function Rest<U>(q: seq<U>): seq<U> {
    if q == [] then [] else q[1..]
  }

  function Cipher<T>(script: Script<T>): seq<T> {
    if script.ciphertexts == [] then [] else script.ciphertexts[0]
  }

  /** The ciphertext of one call goes into the write BIO; `script` is what is left for later calls. */
  function Called<T>(s: Ssl<T>, script: Script<T>): Ssl<T> {
    s.(produced := s.produced + Cipher(s.script), writeBio := s.writeBio + Cipher(s.script),
       script := script.(ciphertexts := Rest(s.script.ciphertexts)))
  }

  function NextWrite<T>(s: Ssl<T>): (WriteAnswer, Ssl<T>) {
    (if s.script.writes == [] then WriteWant else s.script.writes[0],
     Called(s, s.script.(writes := Rest(s.script.writes))))
  }

  function NextRead<T>(s: Ssl<T>): (ReadAnswer<T>, Ssl<T>) {
    (if s.script.readings == [] then ReadWant else s.script.readings[0],
     Called(s, s.script.(readings := Rest(s.script.readings))))
  }

  function NextHandshake<T>(s: Ssl<T>): (HandshakeAnswer, Ssl<T>) {
    (if s.script.handshakes == [] then HandshakeWant else s.script.handshakes[0],
     Called(s, s.script.(handshakes := Rest(s.script.handshakes))))
  }

  function NextBioWrite<T>(s: Ssl<T>, chunk: nat): (int, Ssl<T>) {
    if s.script.bioWrites == [] then (chunk, s)
    else (s.script.bioWrites[0], s.(script := s.script.(bioWrites := s.script.bioWrites[1..])))
  }

  // ---- outbound ---------------------------------------------------------------------------

  /** `flushWriteBio`: all ciphertext in the write BIO goes to the TCP connection. */
  function Flush<T>(s: Ssl<T>): Ssl<T> {
    s.(wire := s.wire + s.writeBio, writeBio := [])
  }

  /** A fatal answer: the queue is dropped and the connection is in error for good. */
  function Fail<T>(s: Ssl<T>): Ssl<T> {
    s.(pending := [], state := Error, intact := false, shutdown := true)
  }

  function DrainLoop<T>(s: Ssl<T>, spins: nat): Ssl<T>
    requires spins <= MAX_SPINS
    decreases MAX_SPINS - spins
  {
    if s.pending == [] then Flush(s)
    else if spins == MAX_SPINS then Fail(s)
    else
      var (answer, s1) := NextWrite(s);
      match answer
      case Accept(n) => DrainLoop(Flush(Moved(s1, Taken(n, Min(|s1.pending|, INT_MAX)))), spins + 1)
      case WriteWant => Flush(s1)
      case ZeroReturn => Flush(s1.(pending := [], intact := false))
      case WriteFatal => Flush(Fail(s1))
  }

  /** The first `k` bytes of the queue have been accepted. */
  function Moved<T>(s: Ssl<T>, k: nat): Ssl<T>
    requires k <= |s.pending|
  {
    s.(accepted := s.accepted + s.pending[..k], pending := s.pending[k..])
  }

  /** `drainPendingPlain` */
  function Drain<T>(s: Ssl<T>): Ssl<T> {
    if !s.hasSsl || s.state != Established then s else DrainLoop(s, 0)
  }

  function SendLoop<T>(s: Ssl<T>, data: seq<T>): Ssl<T>
    decreases |data|
  {
    if data == [] then Flush(s)
    else
      var (answer, s1) := NextWrite(s);
      match answer
      case Accept(n) =>
        var k := Taken(n, Min(|data|, INT_MAX));
        SendLoop(Flush(s1.(accepted := s1.accepted + data[..k])), data[k..])
      case _ => Refused(s1, data, answer)
  }

  /** What `send` does with the rest of its data after an answer that accepts nothing. */
  function Refused<T>(s: Ssl<T>, data: seq<T>, answer: WriteAnswer): Ssl<T> {
    if answer.WriteWant? then Drain(Flush(s).(pending := s.pending + data))
    else if answer.ZeroReturn? then Flush(s).(intact := false)
    else Flush(Fail(s))
  }

  /** `send` */
  function Sent<T>(s: Ssl<T>, data: seq<T>): Ssl<T> {
    if !s.hasSsl || s.state != Established || data == [] then s else SendLoop(s, data)
  }

  // ---- inbound -----------------------------------------------------------------------------

  /** How many bytes a `BIO_write` of `chunk` bytes that answered `w` put in. */
  function Put(w: int, chunk: nat): nat {
    if w <= 0 then 0 else Min(w, chunk)
  }

  /** `feedReadBio`: whole chunks of at most INT_MAX bytes, or an error. */
  function Feed<T>(s: Ssl<T>, data: seq<T>): (Ssl<T>, bool)
    decreases |data|
  {
    if data == [] then (s, true)
    else
      var chunk := Min(|data|, INT_MAX);
      var (w, s1) := NextBioWrite(s, chunk);
      if w != chunk then
        (Flush(s1.(fed := s1.fed + data[..Put(w, chunk)], state := Error, shutdown := true)), false)
      else Feed(s1.(fed := s1.fed + data[..chunk]), data[chunk..])
  }

  function Handshake<T>(s: Ssl<T>): Ssl<T> {
    var (answer, s1) := NextHandshake(s);
    match answer
    case Complete => Flush(s1.(state := Established))
    case HandshakeWant => Flush(s1)
    case HandshakeFatal => Flush(s1.(shutdown := true))
  }

  /** The `SSL_read` loop, up to the first answer that is not data. */
  function ReadLoop<T>(s: Ssl<T>): Ssl<T>
    decreases |s.script.readings|
  {
    var (answer, s1) := NextRead(s);
    match answer
    case Data(bytes) =>
      if bytes == [] then s1
      else ReadLoop(s1.(decrypted := s1.decrypted + bytes[..Min(|bytes|, BUFFER_SIZE)]))
    case End => s1
    case ReadWant => s1
    case ReadFatal => s1.(state := Error, shutdown := true)
  }

  /** The rest of `onRead`, once the TCP buffer has been fed and emptied. */
  function FinishRead<T>(s: Ssl<T>): Ssl<T> {
    if s.state == Handshaking then Handshake(s) else Drain(Flush(ReadLoop(s)))
  }

  /** `onRead` after `chunk` has arrived in the TCP buffer. */
  function OnRead<T>(s: Ssl<T>, chunk: seq<T>): Ssl<T> {
    var s0 := s.(tcp := s.tcp + chunk);
    if !s0.hasSsl then s0.(state := Error)
    else if s0.state == Error || (s0.state == Established && s0.tcp == []) then s0
    else
      var (s1, ok) := Feed(s0, s0.tcp);
      if !ok then s1
      else FinishRead(s1.(tcp := [], retrieved := s1.retrieved + s1.tcp))
  }

  function OnWriteComplete<T>(s: Ssl<T>): Ssl<T> {
    if !s.hasSsl then s
    else
      var s1 := Flush(s);
      match s1.state
      case Handshaking => Handshake(s1)
      case Established => Flush(Drain(s1))
      case Error => s1
  }

  // ---- runs -----------------------------------------------------------------------------------

  datatype Event<T> = Send(data: seq<T>) | Read(chunk: seq<T>) | WriteComplete

  function Next<T>(s: Ssl<T>, e: Event<T>): Ssl<T> {
    match e
    case Send(data) => Sent(s, data)
    case Read(chunk) => OnRead(s, chunk)
    case WriteComplete => OnWriteComplete(s)
  }

  function Run<T>(s: Ssl<T>, events: seq<Event<T>>): Ssl<T>
    decreases |events|
  {
    if events == [] then s else Run(Next(s, events[0]), events[1..])
  }

  /** A connection after its constructor and the one call of `startHandshake`. */
  function Opened<T>(hasSsl: bool, script: Script<T>): Ssl<T> {
    var s := Ssl(hasSsl, Handshaking, [], [], [], [], [], [], [], [], [], false, true, script);
    if hasSsl then Handshake(s) else s.(state := Error)
  }

  /** The plaintext that is accounted for: accepted by OpenSSL, then waiting. */
  function Stream<T>(s: Ssl<T>): seq<T> {
    s.accepted + s.pending
  }

  // ---- what draining and sending do to the plaintext --------------------------------------------

  /** From `s` to `s'` plaintext at most moved from the queue to OpenSSL, or was given up at its end. */
  ghost predicate Kept<T>(s: Ssl<T>, s': Ssl<T>) {
    Stream(s') <= Stream(s) && (s'.intact ==> s.intact && Stream(s') == Stream(s))
  }

  ghost predicate SamePlain<T>(s: Ssl<T>, s': Ssl<T>) {
    s'.accepted == s.accepted && s'.pending == s.pending && s'.intact == s.intact && s'.hasSsl == s.hasSsl
  }

  /** Draining moves the head of the queue; what it gives up is the tail, and then `intact` is false. */
  lemma {:induction false} DrainLoopKeeps<T>(s: Ssl<T>, spins: nat)
    requires spins <= MAX_SPINS
    ensures Kept(s, DrainLoop(s, spins))
    decreases MAX_SPINS - spins
  {
    if s.pending != [] && spins < MAX_SPINS {
      var (answer, s1) := NextWrite(s);
      match answer
      case Accept(n) =>
        var k := Taken(n, Min(|s1.pending|, INT_MAX));
        MoveHead(s1.accepted, s1.pending, k);
        DrainLoopKeeps(Flush(Moved(s1, k)), spins + 1);
      case _ =>
    }
  }

  lemma MoveHead<T>(a: seq<T>, b: seq<T>, k: nat)
    requires k <= |b|
    ensures a + b[..k] + b[k..] == a + b
  {}

  /** `data` split once: a front part before the old queue, the rest behind it. */
  function Interleave<T>(a: seq<T>, data: seq<T>, k: nat, b: seq<T>): seq<T>
    requires k <= |data|
  {
    a + data[..k] + b + data[k..]
  }

  /** What a send may do: split its data once, and give up a tail only if `intact` becomes false. */
  ghost predicate Interleaved<T>(s: Ssl<T>, data: seq<T>, s': Ssl<T>, k: nat) {
    k <= |data| && FromMix(Interleave(s.accepted, data, k, s.pending), s.intact, s')
  }

  /** `s'` accounts for all of `mix`, or for a front part of it once plaintext was given up. */
  ghost predicate FromMix<T>(mix: seq<T>, intact: bool, s': Ssl<T>) {
    Stream(s') <= mix && (s'.intact ==> intact && Stream(s') == mix)
  }

  lemma SendLoopInterleaves<T>(s: Ssl<T>, data: seq<T>) returns (k: nat)
    requires s.hasSsl && s.state == Established
    ensures Interleaved(s, data, SendLoop(s, data), k)
  {
    k := SentInterleaves(s, data, SendLoop(s, data));
  }

  ghost predicate SentTo<T>(s: Ssl<T>, data: seq<T>, s': Ssl<T>) {
    s.hasSsl && s.state == Established && s' == SendLoop(s, data)
  }

  lemma {:induction false} SentInterleaves<T>(s: Ssl<T>, data: seq<T>, s': Ssl<T>) returns (k: nat)
    requires SentTo(s, data, s')
    ensures Interleaved(s, data, s', k)
    decreases |data|
  {
    if data == [] || !NextWrite(s).0.Accept? {
      k := SendStops(s, data, s');
    } else {
      var j, s2 := AcceptStep(s, data, s');
      k := SentInterleaves(s2, data[j..], s');
      k := AcceptThenInterleaved(s, s2, data, j, s', k);
    }
  }

  /** The state after an accepting answer to the first write of `data`. */
  function AfterAccept<T>(s: Ssl<T>, data: seq<T>): (s2: Ssl<T>)
    requires data != [] && NextWrite(s).0.Accept?
    ensures var j := Taken(NextWrite(s).0.n, Min(|data|, INT_MAX));
      && SendLoop(s, data) == SendLoop(s2, data[j..])
      && s2.accepted == s.accepted + data[..j] && s2.pending == s.pending && s2.intact == s.intact
      && s2.hasSsl == s.hasSsl && s2.state == s.state
  {
    Flush(NextWrite(s).1.(accepted := s.accepted + data[..Taken(NextWrite(s).0.n, Min(|data|, INT_MAX))]))
  }

  lemma AcceptStep<T>(s: Ssl<T>, data: seq<T>, s': Ssl<T>) returns (j: nat, s2: Ssl<T>)
    requires SentTo(s, data, s') && data != [] && NextWrite(s).0.Accept?
    ensures 1 <= j <= |data| && SentTo(s2, data[j..], s') && Accepted(s, data, j, s2)
  {
    j, s2 := Taken(NextWrite(s).0.n, Min(|data|, INT_MAX)), AfterAccept(s, data);
  }

  /** From `s` to `s2` the first `j` bytes were accepted. */
  ghost predicate Accepted<T>(s: Ssl<T>, data: seq<T>, j: nat, s2: Ssl<T>) {
    && j <= |data| && s2.accepted == s.accepted + data[..j]
    && s2.pending == s.pending && s2.intact == s.intact
  }

  lemma AcceptThenInterleaved<T>(s: Ssl<T>, s2: Ssl<T>, data: seq<T>, j: nat, s': Ssl<T>, k2: nat) returns (k: nat)
    requires Accepted(s, data, j, s2) && Interleaved(s2, data[j..], s', k2)
    ensures Interleaved(s, data, s', k)
  {
    k := j + k2;
    InterleaveTwice(s.accepted, data, j, k2, s.pending);
  }

  lemma SendStops<T>(s: Ssl<T>, data: seq<T>, s': Ssl<T>) returns (k: nat)
    requires SentTo(s, data, s') && (data == [] || !NextWrite(s).0.Accept?)
    ensures Interleaved(s, data, s', k)
  {
    k := 0;
    InterleaveAtStart(s.accepted, data, s.pending);
    var (answer, s1) := NextWrite(s);
    if answer.WriteWant? {
      var s2 := Flush(s1).(pending := s1.pending + data);
      DrainKeepsPlain(s2, s2);
    }
  }

  lemma InterleaveTwice<T>(a: seq<T>, data: seq<T>, j: nat, k: nat, b: seq<T>)
    requires j + k <= |data|
    ensures Interleave(a + data[..j], data[j..], k, b) == Interleave(a, data, j + k, b)
  {
    assert data[..j] + data[j..][..k] == data[..j + k];
    assert data[j..][k..] == data[j + k..];
    assert a + data[..j] + data[j..][..k] == a + (data[..j] + data[j..][..k]);
  }

  lemma InterleaveAtStart<T>(a: seq<T>, data: seq<T>, b: seq<T>)
    ensures Interleave(a, data, 0, b) == a + (b + data)
    ensures a <= Interleave(a, data, 0, b) && a + b <= Interleave(a, data, 0, b)
    ensures data == [] ==> Interleave(a, data, 0, b) == a + b
  {}

  // ---- inbound agreement and the error state -----------------------------------------------------

  /**
    What was taken from the TCP buffer and what is still in it is what arrived; outside the
    error state exactly the bytes taken were fed to OpenSSL, in order.
  */
  ghost predicate Inbound<T>(s: Ssl<T>, arrived: seq<T>) {
    && s.retrieved + s.tcp == arrived
    && (s.state != Error ==> s.hasSsl && s.fed == s.retrieved)
  }

  /** Feeding either puts in everything, in order, or ends in the error state. */
  lemma {:induction false} FeedAll<T>(s: Ssl<T>, data: seq<T>)
    ensures var (s', ok) := Feed(s, data);
      && s'.tcp == s.tcp && s'.retrieved == s.retrieved && s'.hasSsl == s.hasSsl
      && (if ok then s'.state == s.state && s'.fed == s.fed + data else s'.state == Error)
    decreases |data|
  {
    if data != [] {
      var chunk := Min(|data|, INT_MAX);
      var (w, s1) := NextBioWrite(s, chunk);
      if w == chunk {
        FeedAll(s1.(fed := s1.fed + data[..chunk]), data[chunk..]);
        MoveHead(s.fed, data, chunk);
      }
    } else {
      assert s.fed + data == s.fed;
    }
  }

  /** The inbound side of a state, which writing does not touch. */
  ghost predicate SameInbound<T>(s: Ssl<T>, s': Ssl<T>) {
    && s'.tcp == s.tcp && s'.retrieved == s.retrieved && s'.fed == s.fed && s'.hasSsl == s.hasSsl
    && (s.state == Error ==> s'.state == Error)
  }

  lemma {:induction false} DrainLoopInbound<T>(s: Ssl<T>, spins: nat)
    requires spins <= MAX_SPINS
    ensures SameInbound(s, DrainLoop(s, spins))
    decreases MAX_SPINS - spins
  {
    if s.pending != [] && spins < MAX_SPINS {
      var (answer, s1) := NextWrite(s);
      if answer.Accept? {
        DrainLoopInbound(Flush(Moved(s1, Taken(answer.n, Min(|s1.pending|, INT_MAX)))), spins + 1);
      }
    }
  }

  lemma {:induction false} SendLoopInbound<T>(s: Ssl<T>, data: seq<T>)
    ensures SameInbound(s, SendLoop(s, data))
    decreases |data|
  {
    if data != [] {
      var (answer, s1) := NextWrite(s);
      if answer.Accept? {
        var k := Taken(answer.n, Min(|data|, INT_MAX));
        SendLoopInbound(Flush(s1.(accepted := s1.accepted + data[..k])), data[k..]);
      } else if answer.WriteWant? {
        DrainLoopInbound(Flush(s1).(pending := s1.pending + data), 0);
      }
    }
  }

  lemma {:induction false} ReadLoopInbound<T>(s: Ssl<T>)
    ensures SameInbound(s, ReadLoop(s))
    decreases |s.script.readings|
  {
    var (answer, s1) := NextRead(s);
    if answer.Data? && answer.bytes != [] {
      ReadLoopInbound(s1.(decrypted := s1.decrypted + answer.bytes[..Min(|answer.bytes|, BUFFER_SIZE)]));
    }
  }

  function Arrived<T>(events: seq<Event<T>>): seq<T> {
    if events == [] then []
    else (if events[0].Read? then events[0].chunk else []) + Arrived(events[1..])
  }

  lemma NextInbound<T>(s: Ssl<T>, e: Event<T>, arrived: seq<T>)
    requires Inbound(s, arrived)
    ensures Inbound(Next(s, e), arrived + (if e.Read? then e.chunk else []))
  {
    match e
    case Send(data) =>
      SendLoopInbound(s, data);
      assert arrived + [] == arrived;
    case WriteComplete =>
      DrainLoopInbound(Flush(s), 0);
      assert arrived + [] == arrived;
    case Read(chunk) =>
      ReadInbound(s, chunk, arrived);
  }

  lemma ReadInbound<T>(s: Ssl<T>, chunk: seq<T>, arrived: seq<T>)
    requires Inbound(s, arrived)
    ensures Inbound(OnRead(s, chunk), arrived + chunk)
  {
    var s0 := s.(tcp := s.tcp + chunk);
    assert s.retrieved + (s.tcp + chunk) == s.retrieved + s.tcp + chunk;
    FeedAll(s0, s0.tcp);
    var (s1, ok) := Feed(s0, s0.tcp);
    var s2 := s1.(tcp := [], retrieved := s1.retrieved + s1.tcp);
    assert s2.retrieved + [] == s2.retrieved;
    FinishReadInbound(s2);
  }

  lemma FinishReadInbound<T>(s: Ssl<T>)
    ensures SameInbound(s, FinishRead(s))
  {
    if s.state != Handshaking {
      ReadLoopInbound(s);
      DrainInbound(Flush(ReadLoop(s)));
    }
  }

  lemma DrainInbound<T>(s: Ssl<T>)
    ensures SameInbound(s, Drain(s))
  {
    DrainLoopInbound(s, 0);
  }

  lemma {:induction false} RunInbound<T>(s: Ssl<T>, events: seq<Event<T>>, arrived: seq<T>)
    requires Inbound(s, arrived)
    ensures Inbound(Run(s, events), arrived + Arrived(events))
    decreases |events|
  {
    if events == [] {
      assert arrived + [] == arrived;
    } else {
      var first := if events[0].Read? then events[0].chunk else [];
      NextInbound(s, events[0], arrived);
      RunInbound(Next(s, events[0]), events[1..], arrived + first);
      assert arrived + first + Arrived(events[1..]) == arrived + (first + Arrived(events[1..]));
    }
  }

  /** Over every run: nothing received is lost, and OpenSSL is fed exactly what was taken, in order. */
  lemma InboundAgrees<T>(hasSsl: bool, script: Script<T>, events: seq<Event<T>>)
    ensures var s := Run(Opened(hasSsl, script), events);
      && s.retrieved + s.tcp == Arrived(events)
      && (s.state != Error ==> s.hasSsl && s.fed == s.retrieved)
  {
    RunInbound(Opened(hasSsl, script), events, []);
    assert [] + Arrived(events) == Arrived(events);
  }

  /** The error state is for good: nothing is fed, accepted or decrypted any more. */
  lemma {:induction false} ErrorIsFinal<T>(s: Ssl<T>, events: seq<Event<T>>)
    requires s.state == Error
    ensures var s' := Run(s, events);
      && s'.state == Error && s'.fed == s.fed && s'.accepted == s.accepted
      && s'.decrypted == s.decrypted && s'.script == s.script
    decreases |events|
  {
    if events != [] {
      ErrorIsFinal(Next(s, events[0]), events[1..]);
    }
  }

  /** Every `BIO_write` that feeding `n` bytes would make takes its whole chunk. */
  predicate WholeWrites(answers: seq<int>, n: nat) {
    forall i | 0 <= i < |answers| :: WholeWrite(answers[i], i, n)
  }

  predicate WholeWrite(answer: int, i: nat, n: nat) {
    i * INT_MAX < n ==> answer == Min(n - i * INT_MAX, INT_MAX)
  }

  /** Feeding succeeds if and only if no chunk meets a short write. */
  lemma {:induction false} FeedOkIff<T>(s: Ssl<T>, data: seq<T>)
    ensures Feed(s, data).1 <==> WholeWrites(s.script.bioWrites, |data|)
    decreases |data|
  {
    var answers := s.script.bioWrites;
    if data != [] && answers != [] {
      var chunk := Min(|data|, INT_MAX);
      var (w, s1) := NextBioWrite(s, chunk);
      assert WholeWrite(answers[0], 0, |data|) <==> w == chunk;
      if w == chunk {
        FeedOkIff(s1.(fed := s1.fed + data[..chunk]), data[chunk..]);
        forall i | 1 <= i < |answers|
          ensures WholeWrite(answers[i], i, |data|) == WholeWrite(answers[1..][i - 1], i - 1, |data| - chunk)
        {}
        WholeTail(answers, |data|, chunk);
      }
    } else if data != [] {
      FeedsWithoutAnswers(s, data);
    }
  }

  lemma WholeTail(answers: seq<int>, n: nat, chunk: nat)
    requires answers != [] && chunk <= n && WholeWrite(answers[0], 0, n)
    requires forall i | 1 <= i < |answers| ::
      WholeWrite(answers[i], i, n) == WholeWrite(answers[1..][i - 1], i - 1, n - chunk)
    ensures WholeWrites(answers, n) <==> WholeWrites(answers[1..], n - chunk)
  {
    if WholeWrites(answers, n) {
      forall i | 0 <= i < |answers[1..]| ensures WholeWrite(answers[1..][i], i, n - chunk) {
        assert WholeWrite(answers[i + 1], i + 1, n);
      }
    }
  }

  lemma {:induction false} FeedsWithoutAnswers<T>(s: Ssl<T>, data: seq<T>)
    requires s.script.bioWrites == []
    ensures Feed(s, data).1
    decreases |data|
  {
    if data != [] {
      var chunk := Min(|data|, INT_MAX);
      FeedsWithoutAnswers(s.(fed := s.fed + data[..chunk]), data[chunk..]);
    }
  }

  /** A read takes everything from the TCP buffer, or meets a short write, keeps it and is in error. */
  lemma ShortWriteIsError<T>(s: Ssl<T>, chunk: seq<T>)
    requires s.hasSsl && s.state != Error && s.tcp + chunk != []
    ensures var whole, s' := WholeWrites(s.script.bioWrites, |s.tcp + chunk|), OnRead(s, chunk);
      s'.tcp == (if whole then [] else s.tcp + chunk) && (!whole ==> s'.state == Error)
  {
    var s0 := s.(tcp := s.tcp + chunk);
    FeedOkIff(s0, s0.tcp);
    FeedAll(s0, s0.tcp);
    var s1 := Feed(s0, s0.tcp).0;
    FinishReadInbound(s1.(tcp := [], retrieved := s1.retrieved + s1.tcp));
  }

  // ---- ciphertext ------------------------------------------------------------------------------------

  /** All ciphertext that OpenSSL produced was given to the TCP connection, in order, or is in the write BIO. */
  ghost predicate Wired<T>(s: Ssl<T>) {
    s.wire + s.writeBio == s.produced
  }

  lemma CalledWired<T>(s: Ssl<T>, script: Script<T>)
    requires Wired(s)
    ensures Wired(Called(s, script))
  {
    Assoc(s.wire, s.writeBio, Cipher(s.script));
  }

  /** Nothing that OpenSSL produced is left in the write BIO. */
  ghost predicate AllOnWire<T>(s: Ssl<T>) {
    s.writeBio == [] && s.wire == s.produced
  }

  lemma {:induction false} DrainLoopWired<T>(s: Ssl<T>, spins: nat)
    requires spins <= MAX_SPINS && AllOnWire(s)
    ensures AllOnWire(DrainLoop(s, spins))
    decreases MAX_SPINS - spins
  {
    if s.pending != [] && spins < MAX_SPINS {
      var (answer, s1) := NextWrite(s);
      CalledWired(s, s.script.(writes := Rest(s.script.writes)));
      if answer.Accept? {
        DrainLoopWired(Flush(Moved(s1, Taken(answer.n, Min(|s1.pending|, INT_MAX)))), spins + 1);
      }
    }
  }

  lemma {:induction false} SendLoopWired<T>(s: Ssl<T>, data: seq<T>)
    requires AllOnWire(s)
    ensures AllOnWire(SendLoop(s, data))
    decreases |data|
  {
    if data != [] {
      var (answer, s1) := NextWrite(s);
      CalledWired(s, s.script.(writes := Rest(s.script.writes)));
      if answer.Accept? {
        var k := Taken(answer.n, Min(|data|, INT_MAX));
        SendLoopWired(Flush(s1.(accepted := s1.accepted + data[..k])), data[k..]);
      } else if answer.WriteWant? {
        DrainLoopWired(Flush(s1).(pending := s1.pending + data), 0);
      }
    }
  }

  lemma {:induction false} FeedWired<T>(s: Ssl<T>, data: seq<T>)
    requires AllOnWire(s)
    ensures AllOnWire(Feed(s, data).0)
    decreases |data|
  {
    if data != [] {
      var chunk := Min(|data|, INT_MAX);
      var (w, s1) := NextBioWrite(s, chunk);
      if w == chunk {
        FeedWired(s1.(fed := s1.fed + data[..chunk]), data[chunk..]);
      }
    }
  }

  lemma {:induction false} ReadLoopWired<T>(s: Ssl<T>)
    requires Wired(s)
    ensures Wired(ReadLoop(s))
    decreases |s.script.readings|
  {
    var (answer, s1) := NextRead(s);
    CalledWired(s, s.script.(readings := Rest(s.script.readings)));
    if answer.Data? && answer.bytes != [] {
      ReadLoopWired(s1.(decrypted := s1.decrypted + answer.bytes[..Min(|answer.bytes|, BUFFER_SIZE)]));
    }
  }

  lemma HandshakeWired<T>(s: Ssl<T>)
    requires Wired(s)
    ensures AllOnWire(Handshake(s))
  {
    CalledWired(s, s.script.(handshakes := Rest(s.script.handshakes)));
  }

  lemma ReadWired<T>(s: Ssl<T>, chunk: seq<T>)
    requires AllOnWire(s)
    ensures AllOnWire(OnRead(s, chunk))
  {
    var s0 := s.(tcp := s.tcp + chunk);
    FeedWired(s0, s0.tcp);
    var (s1, ok) := Feed(s0, s0.tcp);
    var s2 := s1.(tcp := [], retrieved := s1.retrieved + s1.tcp);
    HandshakeWired(s2);
    ReadLoopWired(s2);
    DrainLoopWired(Flush(ReadLoop(s2)), 0);
  }

  lemma NextWired<T>(s: Ssl<T>, e: Event<T>)
    requires AllOnWire(s)
    ensures AllOnWire(Next(s, e))
  {
    match e
    case Send(data) => SendLoopWired(s, data);
    case Read(chunk) => ReadWired(s, chunk);
    case WriteComplete =>
      HandshakeWired(Flush(s));
      DrainLoopWired(Flush(s), 0);
  }

  lemma {:induction false} RunWired<T>(s: Ssl<T>, events: seq<Event<T>>)
    requires AllOnWire(s)
    ensures AllOnWire(Run(s, events))
    decreases |events|
  {
    if events != [] {
      NextWired(s, events[0]);
      RunWired(Next(s, events[0]), events[1..]);
    }
  }

  /**
    Over every run: after each event, on every path, errors included, all ciphertext that
    OpenSSL has produced was given to the TCP connection, in order.
  */
  lemma CiphertextSent<T>(hasSsl: bool, script: Script<T>, events: seq<Event<T>>)
    ensures var s := Run(Opened(hasSsl, script), events);
      s.wire == s.produced && s.writeBio == []
  {
    HandshakeWired(Ssl(hasSsl, Handshaking, [], [], [], [], [], [], [], [], [], false, true, script));
    RunWired(Opened(hasSsl, script), events);
  }

  // ---- decrypted data --------------------------------------------------------------------------------

  lemma {:induction false} DrainLoopDecrypts<T>(s: Ssl<T>, spins: nat)
    requires spins <= MAX_SPINS
    ensures DrainLoop(s, spins).decrypted == s.decrypted
    ensures DrainLoop(s, spins).script.readings == s.script.readings
    decreases MAX_SPINS - spins
  {
    if s.pending != [] && spins < MAX_SPINS {
      var (answer, s1) := NextWrite(s);
      if answer.Accept? {
        DrainLoopDecrypts(Flush(Moved(s1, Taken(answer.n, Min(|s1.pending|, INT_MAX)))), spins + 1);
      }
    }
  }

  lemma {:induction false} SendLoopDecrypts<T>(s: Ssl<T>, data: seq<T>)
    ensures SendLoop(s, data).decrypted == s.decrypted
    ensures SendLoop(s, data).script.readings == s.script.readings
    decreases |data|
  {
    if data != [] {
      var (answer, s1) := NextWrite(s);
      if answer.Accept? {
        var k := Taken(answer.n, Min(|data|, INT_MAX));
        SendLoopDecrypts(Flush(s1.(accepted := s1.accepted + data[..k])), data[k..]);
      } else if answer.WriteWant? {
        DrainLoopDecrypts(Flush(s1).(pending := s1.pending + data), 0);
      }
    }
  }

  lemma {:induction false} FeedDecrypts<T>(s: Ssl<T>, data: seq<T>)
    ensures Feed(s, data).0.decrypted == s.decrypted
    ensures Feed(s, data).0.script.readings == s.script.readings
    decreases |data|
  {
    if data != [] {
      var chunk := Min(|data|, INT_MAX);
      var (w, s1) := NextBioWrite(s, chunk);
      if w == chunk {
        FeedDecrypts(s1.(fed := s1.fed + data[..chunk]), data[chunk..]);
      }
    }
  }

  lemma {:induction false} ReadLoopDecrypts<T>(s: Ssl<T>)
    ensures s.decrypted <= ReadLoop(s).decrypted
    ensures s.script.readings != [] ==> |ReadLoop(s).script.readings| < |s.script.readings|
    decreases |s.script.readings|
  {
    var (answer, s1) := NextRead(s);
    if answer.Data? && answer.bytes != [] {
      ReadLoopDecrypts(s1.(decrypted := s1.decrypted + answer.bytes[..Min(|answer.bytes|, BUFFER_SIZE)]));
    }
  }

  /** Decrypted data only grows, and only by reading. */
  lemma NextDecrypts<T>(s: Ssl<T>, e: Event<T>)
    ensures s.decrypted <= Next(s, e).decrypted
    ensures !e.Read? ==> Next(s, e).decrypted == s.decrypted
  {
    match e
    case Send(data) => SendLoopDecrypts(s, data);
    case WriteComplete => DrainLoopDecrypts(Flush(s), 0);
    case Read(chunk) => ReadDecrypts(s, chunk);
  }

  lemma ReadDecrypts<T>(s: Ssl<T>, chunk: seq<T>)
    ensures s.decrypted <= OnRead(s, chunk).decrypted
  {
    var s0 := s.(tcp := s.tcp + chunk);
    FeedDecrypts(s0, s0.tcp);
    var s1 := Feed(s0, s0.tcp).0;
    FinishReadDecrypts(s1.(tcp := [], retrieved := s1.retrieved + s1.tcp));
  }

  lemma FinishReadDecrypts<T>(s: Ssl<T>)
    ensures s.decrypted <= FinishRead(s).decrypted
  {
    if s.state != Handshaking {
      ReadLoopDecrypts(s);
      DrainLoopDecrypts(Flush(ReadLoop(s)), 0);
    }
  }

  /** The read asks OpenSSL for data: only when the handshake was over before it and all was fed. */
  ghost predicate Asks<T>(s: Ssl<T>, chunk: seq<T>) {
    && s.hasSsl && s.state == Established && s.tcp + chunk != []
    && WholeWrites(s.script.bioWrites, |s.tcp + chunk|)
  }

  /**
    Data that OpenSSL has ready stays where it is if and only if the read does not ask; so what
    arrives with the end of the handshake waits for the next bytes from TCP.
  */
  lemma ReadAsksIff<T>(s: Ssl<T>, chunk: seq<T>)
    requires s.script.readings != []
    ensures OnRead(s, chunk).script.readings == s.script.readings <==> !Asks(s, chunk)
    ensures !Asks(s, chunk) ==> OnRead(s, chunk).decrypted == s.decrypted
  {
    var s0 := s.(tcp := s.tcp + chunk);
    FeedOkIff(s0, s0.tcp);
    FeedAll(s0, s0.tcp);
    FeedDecrypts(s0, s0.tcp);
    var s1 := Feed(s0, s0.tcp).0;
    FinishReadAsks(s1.(tcp := [], retrieved := s1.retrieved + s1.tcp));
  }

  lemma FinishReadAsks<T>(s: Ssl<T>)
    requires s.script.readings != []
    ensures s.state == Handshaking ==>
      FinishRead(s).script.readings == s.script.readings && FinishRead(s).decrypted == s.decrypted
    ensures s.state != Handshaking ==> |FinishRead(s).script.readings| < |s.script.readings|
  {
    if s.state != Handshaking {
      ReadLoopDecrypts(s);
      DrainLoopDecrypts(Flush(ReadLoop(s)), 0);
    }
  }

  // ---- each send is delivered once and in order ------------------------------------------------

  function Filter<T>(s: seq<T>, p: T -> bool): seq<T> {
    if s == [] then []
    else (if p(s[0]) then [s[0]] else []) + Filter(s[1..], p)
  }

  lemma {:induction false} FilterConcat<T>(a: seq<T>, b: seq<T>, p: T -> bool)
    ensures Filter(a + b, p) == Filter(a, p) + Filter(b, p)
    decreases |a|
  {
    if a == [] {
      assert a + b == b;
    } else {
      assert (a + b)[0] == a[0] && (a + b)[1..] == a[1..] + b;
      FilterConcat(a[1..], b, p);
      Assoc(if p(a[0]) then [a[0]] else [], Filter(a[1..], p), Filter(b, p));
    }
  }

  lemma FilterPrefix<T>(a: seq<T>, b: seq<T>, p: T -> bool)
    requires a <= b
    ensures Filter(a, p) <= Filter(b, p)
  {
    assert b == a + b[|a|..];
    FilterConcat(a, b[|a|..], p);
  }

  ghost predicate All<T>(s: seq<T>, p: T -> bool) {
    forall i | 0 <= i < |s| :: p(s[i])
  }

  ghost predicate None<T>(s: seq<T>, p: T -> bool) {
    forall i | 0 <= i < |s| :: !p(s[i])
  }

  lemma {:induction false} FilterAll<T>(s: seq<T>, p: T -> bool)
    ensures All(s, p) ==> Filter(s, p) == s
    ensures None(s, p) ==> Filter(s, p) == []
    decreases |s|
  {
    if s != [] {
      FilterAll(s[1..], p);
    }
  }

  lemma FilterInterleave<T>(a: seq<T>, data: seq<T>, k: nat, b: seq<T>, p: T -> bool)
    requires k <= |data|
    ensures Filter(Interleave(a, data, k, b), p)
      == Filter(a, p) + Filter(data[..k], p) + Filter(b, p) + Filter(data[k..], p)
  {
    FilterConcat(a + data[..k] + b, data[k..], p);
    FilterConcat(a + data[..k], b, p);
    FilterConcat(a, data[..k], p);
  }

  lemma FilterOthers<T>(a: seq<T>, data: seq<T>, k: nat, b: seq<T>, p: T -> bool)
    requires k <= |data| && None(data, p)
    ensures Filter(Interleave(a, data, k, b), p) == Filter(a + b, p)
  {
    FilterInterleave(a, data, k, b, p);
    FilterAll(data[..k], p);
    FilterAll(data[k..], p);
    FilterConcat(a, b, p);
    EmptyMiddle(Filter(a, p), Filter(b, p));
  }

  lemma EmptyMiddle<T>(a: seq<T>, b: seq<T>)
    ensures a + [] + b + [] == a + b
  {}

  lemma FilterOwn<T>(a: seq<T>, data: seq<T>, k: nat, b: seq<T>, p: T -> bool)
    requires k <= |data| && All(data, p) && Filter(a + b, p) == []
    ensures Filter(Interleave(a, data, k, b), p) == data
  {
    FilterInterleave(a, data, k, b, p);
    FilterAll(data[..k], p);
    FilterAll(data[k..], p);
    FilterConcat(a, b, p);
    EmptyParts(Filter(a, p), data, k, Filter(b, p));
  }

  lemma EmptyParts<T>(a: seq<T>, data: seq<T>, k: nat, b: seq<T>)
    requires k <= |data| && a + b == []
    ensures a + data[..k] + b + data[k..] == data
  {
    assert |a + b| == |a| + |b|;
  }

  /** No byte of this event's send satisfies `p`. */
  ghost predicate Others<T>(e: Event<T>, p: T -> bool) {
    e.Send? ==> None(e.data, p)
  }

  ghost predicate AllOthers<T>(events: seq<Event<T>>, p: T -> bool) {
    forall i | 0 <= i < |events| :: Others(events[i], p)
  }

  /** What an event does not send it neither adds, repeats nor reorders. */
  lemma NextKeepsOthers<T>(s: Ssl<T>, e: Event<T>, p: T -> bool)
    requires Others(e, p)
    ensures var s' := Next(s, e);
      && Filter(Stream(s'), p) <= Filter(Stream(s), p)
      && (s'.intact ==> s.intact && Filter(Stream(s'), p) == Filter(Stream(s), p))
  {
    if e.Send? && s.hasSsl && s.state == Established {
      var k := SendLoopInterleaves(s, e.data);
      FilterOthers(s.accepted, e.data, k, s.pending, p);
      FilterPrefix(Stream(Next(s, e)), Interleave(s.accepted, e.data, k, s.pending), p);
    } else if !e.Send? {
      NotSendKeeps(s, e);
      FilterPrefix(Stream(Next(s, e)), Stream(s), p);
    }
  }

  /** Reading and write completion only move plaintext from the queue to OpenSSL. */
  lemma NotSendKeeps<T>(s: Ssl<T>, e: Event<T>)
    requires !e.Send?
    ensures Kept(s, Next(s, e))
  {
    if e.Read? {
      ReadKeeps(s, e.chunk);
    } else if s.hasSsl && s.state == Established {
      DrainLoopKeeps(Flush(s), 0);
    }
  }

  lemma ReadKeeps<T>(s: Ssl<T>, chunk: seq<T>)
    ensures Kept(s, OnRead(s, chunk))
  {
    var s0 := s.(tcp := s.tcp + chunk);
    var s1 := Feed(s0, s0.tcp).0;
    FeedPlain(s0, s0.tcp);
    FinishReadKeeps(s, s1.(tcp := [], retrieved := s1.retrieved + s1.tcp));
  }

  lemma FinishReadKeeps<T>(s: Ssl<T>, s2: Ssl<T>)
    requires SamePlain(s, s2)
    ensures Kept(s, FinishRead(s2))
  {
    if s2.state != Handshaking {
      ReadLoopPlain(s2);
      DrainKeepsPlain(s, Flush(ReadLoop(s2)));
    }
  }

  lemma DrainKeepsPlain<T>(s: Ssl<T>, s': Ssl<T>)
    requires SamePlain(s, s')
    ensures Kept(s, Drain(s'))
  {
    DrainLoopKeeps(s', 0);
  }

  /** Feeding ciphertext does not touch the plaintext. */
  lemma {:induction false} FeedPlain<T>(s: Ssl<T>, data: seq<T>)
    ensures SamePlain(s, Feed(s, data).0)
    decreases |data|
  {
    if data != [] {
      var chunk := Min(|data|, INT_MAX);
      var (w, s1) := NextBioWrite(s, chunk);
      if w == chunk {
        FeedPlain(s1.(fed := s1.fed + data[..chunk]), data[chunk..]);
      }
    }
  }

  lemma {:induction false} ReadLoopPlain<T>(s: Ssl<T>)
    ensures SamePlain(s, ReadLoop(s))
    decreases |s.script.readings|
  {
    var (answer, s1) := NextRead(s);
    if answer.Data? && answer.bytes != [] {
      ReadLoopPlain(s1.(decrypted := s1.decrypted + answer.bytes[..Min(|answer.bytes|, BUFFER_SIZE)]));
    }
  }

  lemma {:induction false} RunKeepsOthers<T>(s: Ssl<T>, events: seq<Event<T>>, p: T -> bool)
    requires AllOthers(events, p)
    ensures var s' := Run(s, events);
      && Filter(Stream(s'), p) <= Filter(Stream(s), p)
      && (s'.intact ==> s.intact && Filter(Stream(s'), p) == Filter(Stream(s), p))
    decreases |events|
  {
    if events != [] {
      assert Others(events[0], p);
      NextKeepsOthers(s, events[0], p);
      RunKeepsOthers(Next(s, events[0]), events[1..], p);
    }
  }

  /**
    Over every run: the bytes of one send, recognised by `p`, appear in what was accepted
    and what waits at most once, from the first on and in order; and all of them appear
    unless plaintext was given up after a close notification, a fatal error or the spin limit.
  */
  lemma SendDelivered<T>(hasSsl: bool, script: Script<T>, before: seq<Event<T>>, data: seq<T>,
                         after: seq<Event<T>>, p: T -> bool)
    requires All(data, p) && AllOthers(before, p) && AllOthers(after, p)
    requires Run(Opened(hasSsl, script), before).state == Established
    ensures var s := Run(Next(Run(Opened(hasSsl, script), before), Send(data)), after);
      && Filter(Stream(s), p) <= data && (s.intact ==> Filter(Stream(s), p) == data)
  {
    var s0 := Opened(hasSsl, script);
    RunKeepsOthers(s0, before, p);
    var s1 := Run(s0, before);
    RunInbound(s0, before, []);
    var k := SendLoopInterleaves(s1, data);
    FilterOwn(s1.accepted, data, k, s1.pending, p);
    var s2 := Next(s1, Send(data));
    FilterPrefix(Stream(s2), Interleave(s1.accepted, data, k, s1.pending), p);
    RunKeepsOthers(s2, after, p);
  }

  // ---- the order of different sends ---------------------------------------------------------------

  /** Every send of bytes finds the queue empty. */
  ghost predicate QueueEmptyAtSends<T>(s: Ssl<T>, events: seq<Event<T>>)
    decreases |events|
  {
    events == []
    || ((events[0].Send? && s.state == Established ==> events[0].data == [] || s.pending == [])
        && QueueEmptyAtSends(Next(s, events[0]), events[1..]))
  }

  /** All bytes sent while the connection is established, in the order of the sends. */
  function AllSent<T>(s: Ssl<T>, events: seq<Event<T>>): seq<T>
    decreases |events|
  {
    if events == [] then []
    else
      (if events[0].Send? && s.hasSsl && s.state == Established then events[0].data else [])
      + AllSent(Next(s, events[0]), events[1..])
  }

  lemma QuietSend<T>(s: Ssl<T>, e: Event<T>)
    requires e.Send? && s.hasSsl && s.state == Established && (e.data == [] || s.pending == [])
    ensures Next(s, e).intact ==> s.intact && Stream(Next(s, e)) == Stream(s) + e.data
  {
    var k := SendLoopInterleaves(s, e.data);
    InterleaveQuiet(s.accepted, e.data, k, s.pending);
  }

  lemma InterleaveQuiet<T>(a: seq<T>, data: seq<T>, k: nat, b: seq<T>)
    requires k <= |data| && (data == [] || b == [])
    ensures Interleave(a, data, k, b) == a + b + data
  {
    assert data[..k] + data[k..] == data;
  }

  /** If the queue is empty at every send, plaintext keeps the order of the sends. */
  lemma {:induction false} FifoRun<T>(s: Ssl<T>, events: seq<Event<T>>)
    requires QueueEmptyAtSends(s, events)
    ensures Run(s, events).intact ==> s.intact && Stream(Run(s, events)) == Stream(s) + AllSent(s, events)
    decreases |events|
  {
    if events == [] {
      assert Stream(s) + [] == Stream(s);
    } else {
      var e, s1 := events[0], Next(s, events[0]);
      FifoRun(s1, events[1..]);
      if e.Send? && s.hasSsl && s.state == Established {
        QuietSend(s, e);
        assert Stream(s) + e.data + AllSent(s1, events[1..]) == Stream(s) + (e.data + AllSent(s1, events[1..]));
      } else {
        if !e.Send? {
          NotSendKeeps(s, e);
        }
        assert [] + AllSent(s1, events[1..]) == AllSent(s1, events[1..]);
      }
    }
  }

  /** OpenSSL accepts `k` bytes one at a time and then wants to wait. */
  function OneByOne(k: nat): seq<WriteAnswer> {
    seq(k, _ => Accept(1))
  }

  lemma {:induction false} SendOneByOne<T>(s: Ssl<T>, data: seq<T>, k: nat)
    requires s.hasSsl && s.state == Established && k <= |data|
    requires s.script.writes == OneByOne(k)
    ensures var s' := SendLoop(s, data);
      s'.intact == s.intact && Stream(s') == Interleave(s.accepted, data, k, s.pending)
    decreases k
  {
    if k == 0 {
      InterleaveAtStart(s.accepted, data, s.pending);
      if data != [] {
        var s1 := Flush(NextWrite(s).1).(pending := s.pending + data);
        assert NextWrite(s1).0.WriteWant?;
      }
    } else {
      var s1 := AfterAccept(s, data);
      assert OneByOne(k)[1..] == OneByOne(k - 1);
      SendOneByOne(s1, data[1..], k - 1);
      InterleaveTwice(s.accepted, data, 1, k - 1, s.pending);
    }
  }

  /** One and the same byte, repeated: the only plaintext whose order cannot be seen. */
  ghost predicate Constant<T>(s: seq<T>) {
    forall i | 0 <= i < |s| :: s[i] == s[0]
  }

  ghost predicate InOrder<T>(s: Ssl<T>, data: seq<T>, script: Script<T>) {
    var s' := Sent(s.(script := script), data);
    s'.intact ==> Stream(s') == Stream(s) + data
  }

  /** Accepting `k` bytes of `data` before the queue keeps the order only if both commute. */
  lemma OrderNeedsCommuting<T>(a: seq<T>, data: seq<T>, k: nat, b: seq<T>)
    requires k <= |data| && Interleave(a, data, k, b) == a + b + data
    ensures data[..k] + b == b + data[..k]
  {
    var n := |a|;
    var left, right := Interleave(a, data, k, b), a + b + data;
    assert left[n..n + k + |b|] == data[..k] + b;
    assert right[n..n + k + |b|] == b + data[..k];
  }

  lemma CommutingIsConstant<T>(data: seq<T>, b: seq<T>)
    requires data != [] && b != []
    requires forall k | 0 <= k <= |data| :: data[..k] + b == b + data[..k]
    ensures Constant(b + data)
  {
    var last := b[|b| - 1];
    forall i | 0 <= i < |data| ensures data[i] == last {
      assert data[..i + 1] + b == b + data[..i + 1];
      LastOfBoth(data[..i + 1], b);
    }
    assert data[..1] + b == b + data[..1];
    assert data[..1] == [last];
    ShiftIsConstant(b, last, |b|);
    assert forall i | 0 <= i < |b + data| :: (b + data)[i] == last;
  }

  lemma LastOfBoth<T>(a: seq<T>, b: seq<T>)
    requires a != [] && b != [] && a + b == b + a
    ensures a[|a| - 1] == b[|b| - 1]
  {
    var n := |a| + |b| - 1;
    assert (a + b)[n] == b[|b| - 1] && (b + a)[n] == a[|a| - 1];
  }

  lemma {:induction false} ShiftIsConstant<T>(b: seq<T>, x: T, n: nat)
    requires n <= |b| && [x] + b == b + [x]
    ensures forall i | 0 <= i < n :: b[i] == x
    decreases n
  {
    if n > 0 {
      ShiftIsConstant(b, x, n - 1);
      assert ([x] + b)[n - 1] == (b + [x])[n - 1];
    }
  }

  /**
    `send` writes before looking at the queue. So it keeps the order for every behaviour of
    OpenSSL if and only if the queue or the data is empty, or all their bytes are the same.
  */
  lemma SendKeepsOrderIff<T>(s: Ssl<T>, data: seq<T>)
    requires s.hasSsl && s.state == Established && s.intact
    ensures (forall script :: InOrder(s, data, script))
      <==> s.pending == [] || data == [] || Constant(s.pending + data)
  {
    if s.pending == [] || data == [] || Constant(s.pending + data) {
      forall script ensures InOrder(s, data, script) {
        var s0 := s.(script := script);
        if s.pending == [] || data == [] {
          QuietSend(s0, Send(data));
        } else {
          var k := SendLoopInterleaves(s0, data);
          ConstantCommutes(s.accepted, data, k, s.pending);
        }
      }
    } else if forall script :: InOrder(s, data, script) {
      forall k | 0 <= k <= |data| ensures data[..k] + s.pending == s.pending + data[..k] {
        var script := s.script.(writes := OneByOne(k));
        assert InOrder(s, data, script);
        SendOneByOne(s.(script := script), data, k);
        OrderNeedsCommuting(s.accepted, data, k, s.pending);
      }
      CommutingIsConstant(data, s.pending);
    }
  }

  lemma SendWaits<T>(s: Ssl<T>, data: seq<T>, writes: seq<WriteAnswer>)
    requires s.hasSsl && s.state == Established && data != []
    requires s.script.writes == [WriteWant, WriteWant] + writes
    ensures var s' := Next(s, Send(data));
      && s'.hasSsl && s'.state == Established && s'.script.writes == writes && s'.intact == s.intact
      && s'.accepted == s.accepted && s'.pending == s.pending + data
  {
    var s1 := Flush(NextWrite(s).1).(pending := s.pending + data);
    assert s1.script.writes == [WriteWant] + writes;
    assert NextWrite(s1).1.script.writes == writes;
  }

  lemma SendSplits<T>(s: Ssl<T>, b: T, c: T)
    requires s.hasSsl && s.state == Established && s.script.writes == [Accept(1), WriteWant, WriteWant]
    ensures var s' := Next(s, Send([b, c]));
      && s'.intact == s.intact && s'.accepted == s.accepted + [b] && s'.pending == s.pending + [c]
  {
    var s1 := AfterAccept(s, [b, c]);
    assert [b, c][..1] == [b] && [b, c][1..] == [c];
    assert s1.script.writes == [WriteWant, WriteWant] + [];
    SendWaits(s1, [c], []);
  }

  /** A run from the start in which two sends overtake each other: `a` waits, and `b` is accepted before it. */
  lemma SendsOvertake<T>(a: T, b: T, c: T)
    ensures var script := Script([WriteWant, WriteWant, Accept(1), WriteWant, WriteWant], [], [Complete], [], []);
      var s := Run(Opened(true, script), [Send([a]), Send([b, c])]);
      s.intact && Stream(s) == [b, a, c]
  {
    var script := Script([WriteWant, WriteWant, Accept(1), WriteWant, WriteWant], [], [Complete], [], []);
    var s0: Ssl<T> := Opened(true, script);
    var writes := [Accept(1), WriteWant, WriteWant];
    assert script.writes == [WriteWant, WriteWant] + writes;
    SendWaits(s0, [a], writes);
    var s1 := Next(s0, Send([a]));
    SendSplits(s1, b, c);
    var s2 := Next(s1, Send([b, c]));
    var events := [Send([a]), Send([b, c])];
    assert events[1..] == [Send([b, c])] && events[1..][1..] == [];
    assert Run(s2, []) == s2 && Run(s1, events[1..]) == s2;
  }

  lemma ConstantCommutes<T>(a: seq<T>, data: seq<T>, k: nat, b: seq<T>)
    requires k <= |data| && Constant(b + data)
    ensures Interleave(a, data, k, b) == a + b + data
  {
    var x := (b + data)[..];
    forall i | 0 <= i < |b| ensures b[i] == x[0] {
      assert (b + data)[i] == b[i];
    }
    forall i | 0 <= i < |data| ensures data[i] == x[0] {
      assert (b + data)[|b| + i] == data[i];
    }
    assert data[..k] + b == b + data[..k];
    assert a + data[..k] + b == a + (data[..k] + b);
    assert data[..k] + data[k..] == data;
    assert a + (b + data[..k]) + data[k..] == a + b + (data[..k] + data[k..]);
  }

  // ---- the imperative connection -------------------------------------------------------------------

  /** The library: it answers by its script and records what it was given. */
  class OpenSsl<T> {
    var script: Script<T>
    var accepted: seq<T>
    var fed: seq<T>
    var produced: seq<T>
    var writeBio: seq<T>

    constructor (script: Script<T>)
      ensures this.script == script && accepted == [] && fed == [] && produced == [] && writeBio == []
    {
      this.script := script;
      accepted, fed, produced, writeBio := [], [], [], [];
    }

    /** Every call may leave ciphertext in the write BIO. */
    method Produce()
      modifies this`script, this`produced, this`writeBio
      ensures script == old(script).(ciphertexts := Rest(old(script.ciphertexts)))
      ensures produced == old(produced) + Cipher(old(script)) && writeBio == old(writeBio) + Cipher(old(script))
    {
      produced := produced + Cipher(script);
      writeBio := writeBio + Cipher(script);
      script := script.(ciphertexts := Rest(script.ciphertexts));
    }

    /** `SSL_write` and, when `n` is not positive, `SSL_get_error`. */
    method Write(data: seq<T>) returns (n: nat, answer: WriteAnswer)
      requires 0 < |data| <= INT_MAX
      modifies this
      ensures answer == (if old(script.writes) == [] then WriteWant else old(script.writes)[0])
      ensures n == (if answer.Accept? then Taken(answer.n, |data|) else 0)
      ensures accepted == old(accepted) + data[..n] && fed == old(fed)
      ensures produced == old(produced) + Cipher(old(script)) && writeBio == old(writeBio) + Cipher(old(script))
      ensures script == old(script).(writes := Rest(old(script.writes)), ciphertexts := Rest(old(script.ciphertexts)))
    {
      answer := if script.writes == [] then WriteWant else script.writes[0];
      n := if answer.Accept? then Taken(answer.n, |data|) else 0;
      Produce();
      script := script.(writes := Rest(script.writes));
      accepted := accepted + data[..n];
    }

    method BioWrite(data: seq<T>) returns (w: int)
      modifies this`script, this`fed
      ensures w == (if old(script.bioWrites) == [] then |data| else old(script.bioWrites)[0])
      ensures fed == old(fed) + data[..Put(w, |data|)]
      ensures script == (if old(script.bioWrites) == [] then old(script)
                         else old(script).(bioWrites := old(script.bioWrites)[1..]))
    {
      w := |data|;
      if script.bioWrites != [] {
        w := script.bioWrites[0];
        script := script.(bioWrites := script.bioWrites[1..]);
      }
      fed := fed + data[..Put(w, |data|)];
    }

    /** `BIO_read` from the write BIO, a memory BIO: as many of its bytes as fit. */
    method BioRead(size: nat) returns (bytes: seq<T>)
      modifies this`writeBio
      ensures bytes == old(writeBio)[..Min(|old(writeBio)|, size)]
      ensures writeBio == old(writeBio)[Min(|old(writeBio)|, size)..]
    {
      var n := Min(|writeBio|, size);
      bytes := writeBio[..n];
      writeBio := writeBio[n..];
    }

    /** `SSL_read` into a buffer of BUFFER_SIZE bytes; no bytes means that the call did not return data. */
    method Read() returns (bytes: seq<T>, answer: ReadAnswer<T>)
      modifies this`script, this`produced, this`writeBio
      ensures answer == (if old(script.readings) == [] then ReadWant else old(script.readings)[0])
      ensures bytes == (if answer.Data? then answer.bytes[..Min(|answer.bytes|, BUFFER_SIZE)] else [])
      ensures produced == old(produced) + Cipher(old(script)) && writeBio == old(writeBio) + Cipher(old(script))
      ensures script
        == old(script).(readings := Rest(old(script.readings)), ciphertexts := Rest(old(script.ciphertexts)))
    {
      answer := if script.readings == [] then ReadWant else script.readings[0];
      bytes := if answer.Data? then answer.bytes[..Min(|answer.bytes|, BUFFER_SIZE)] else [];
      Produce();
      script := script.(readings := Rest(script.readings));
    }

    method DoHandshake() returns (answer: HandshakeAnswer)
      modifies this`script, this`produced, this`writeBio
      ensures answer == (if old(script.handshakes) == [] then HandshakeWant else old(script.handshakes)[0])
      ensures produced == old(produced) + Cipher(old(script)) && writeBio == old(writeBio) + Cipher(old(script))
      ensures script
        == old(script).(handshakes := Rest(old(script.handshakes)), ciphertexts := Rest(old(script.ciphertexts)))
    {
      answer := if script.handshakes == [] then HandshakeWant else script.handshakes[0];
      Produce();
      script := script.(handshakes := Rest(script.handshakes));
    }
  }

  class SslConnection<T> {
    const openssl: OpenSsl<T>
    const hasSsl: bool
    var state: SslState
    var pendingPlain: seq<T>
    var tcp: seq<T>
    var decrypted: seq<T>
    var wire: seq<T>
    var shutdown: bool
    ghost var retrieved: seq<T>
    ghost var intact: bool

    ghost function Abs(): Ssl<T>
      reads this, openssl
    {
      Ssl(hasSsl, state, pendingPlain, openssl.accepted, tcp, openssl.fed, retrieved, decrypted,
          openssl.produced, openssl.writeBio, wire, shutdown, intact, openssl.script)
    }

    constructor (hasSsl: bool, script: Script<T>)
      ensures Abs() == Ssl(hasSsl, Handshaking, [], [], [], [], [], [], [], [], [], false, true, script)
      ensures fresh(openssl)
    {
      openssl := new OpenSsl<T>(script);
      this.hasSsl := hasSsl;
      state := Handshaking;
      pendingPlain, tcp, decrypted, wire, retrieved := [], [], [], [], [];
      shutdown, intact := false, true;
    }

    method StartHandshake()
      modifies this, openssl
      ensures Abs() == (if hasSsl then Handshake(old(Abs())) else old(Abs()).(state := Error))
    {
      if !hasSsl {
        state := Error;
        return;
      }
      HandleHandshake();
    }

    method HandleHandshake()
      modifies this, openssl
      ensures Abs() == Handshake(old(Abs()))
    {
      var answer := openssl.DoHandshake();
      match answer {
        case Complete => state := Established;
        case HandshakeWant =>
        case HandshakeFatal => shutdown := true;
      }
      FlushWriteBio();
    }

    /** Moves what the write BIO holds to the TCP connection, a buffer at a time. */
    method FlushWriteBio()
      modifies this`wire, openssl`writeBio
      ensures Abs() == Flush(old(Abs()))
    {
      while openssl.writeBio != []
        invariant Flush(Abs()) == Flush(old(Abs()))
        decreases |openssl.writeBio|
      {
        ghost var rest := openssl.writeBio;
        var bytes := openssl.BioRead(Min(|openssl.writeBio|, BUFFER_SIZE));
        wire := wire + bytes;
        MoveHead(wire[..|wire| - |bytes|], rest, |bytes|);
      }
      assert wire + [] == wire;
    }

    method FailForGood()
      modifies this
      ensures Abs() == Fail(old(Abs()))
    {
      pendingPlain := [];
      state := Error;
      shutdown := true;
      intact := false;
    }

    method DrainPendingPlain()
      modifies this, openssl
      ensures Abs() == Drain(old(Abs()))
    {
      if !hasSsl || state != Established {
        return;
      }
      var spins := 0;
      while pendingPlain != [] && spins < MAX_SPINS
        invariant spins <= MAX_SPINS
        invariant DrainLoop(Abs(), spins) == Drain(old(Abs()))
        decreases MAX_SPINS - spins
      {
        spins := spins + 1;
        var chunk := Min(|pendingPlain|, INT_MAX);
        var n, answer := openssl.Write(pendingPlain[..chunk]);
        if n > 0 {
          assert pendingPlain[..chunk][..n] == pendingPlain[..n];
          pendingPlain := pendingPlain[n..];
          FlushWriteBio();
          continue;
        }
        if answer.WriteWant? {
          FlushWriteBio();
          return;
        }
        if answer.ZeroReturn? {
          pendingPlain := [];
          intact := false;
          FlushWriteBio();
          return;
        }
        FailForGood();
        FlushWriteBio();
        return;
      }
      if spins >= MAX_SPINS && pendingPlain != [] {
        FailForGood();
        return;
      }
      FlushWriteBio();
    }

    /** The branches of `send` after a write that accepted nothing. */
    method WriteRefused(remain: seq<T>, answer: WriteAnswer)
      modifies this, openssl
      ensures Abs() == Refused(old(Abs()), remain, answer)
    {
      if answer.WriteWant? {
        FlushWriteBio();
        pendingPlain := pendingPlain + remain;
        DrainPendingPlain();
      } else if answer.ZeroReturn? {
        FlushWriteBio();
        intact := false;
      } else {
        FailForGood();
        FlushWriteBio();
      }
    }

    method Send(data: seq<T>)
      modifies this, openssl
      ensures Abs() == Sent(old(Abs()), data)
    {
      if !hasSsl || state != Established || data == [] {
        return;
      }
      var remain := data;
      while remain != []
        invariant hasSsl && state == Established
        invariant SendLoop(Abs(), remain) == Sent(old(Abs()), data)
        decreases |remain|
      {
        var n, answer := WriteSome(remain);
        if n > 0 {
          remain := remain[n..];
          continue;
        }
        WriteRefused(remain, answer);
        return;
      }
      FlushWriteBio();
    }

    /** One write of at most INT_MAX bytes of what remains. */
    method WriteSome(remain: seq<T>) returns (n: nat, answer: WriteAnswer)
      requires remain != []
      modifies this, openssl
      ensures answer == NextWrite(old(Abs())).0
      ensures n == (if answer.Accept? then Taken(answer.n, Min(|remain|, INT_MAX)) else 0)
      ensures Abs() == (if answer.Accept? then AfterAccept(old(Abs()), remain) else NextWrite(old(Abs())).1)
    {
      var chunk := Min(|remain|, INT_MAX);
      n, answer := openssl.Write(remain[..chunk]);
      assert remain[..chunk][..n] == remain[..n];
      if n > 0 {
        FlushWriteBio();
      }
    }

    method FeedReadBio(data: seq<T>) returns (ok: bool)
      modifies this, openssl
      ensures (Abs(), ok) == Feed(old(Abs()), data)
      ensures ok ==> state == old(state) && tcp == old(tcp)
    {
      var remain := data;
      while remain != []
        invariant state == old(state) && tcp == old(tcp)
        invariant Feed(Abs(), remain) == Feed(old(Abs()), data)
        decreases |remain|
      {
        var chunk := Min(|remain|, INT_MAX);
        var w := openssl.BioWrite(remain[..chunk]);
        if w != chunk {
          assert remain[..chunk][..Put(w, chunk)] == remain[..Put(w, chunk)];
          state := Error;
          FlushWriteBio();
          shutdown := true;
          return false;
        }
        assert remain[..chunk][..chunk] == remain[..chunk];
        remain := remain[chunk..];
      }
      return true;
    }

    method ReadPlain()
      modifies this, openssl
      ensures Abs() == ReadLoop(old(Abs()))
    {
      var bytes, answer := openssl.Read();
      while bytes != []
        invariant answer.Data? ==> bytes == answer.bytes[..Min(|answer.bytes|, BUFFER_SIZE)]
        invariant !answer.Data? ==> bytes == []
        invariant ReadLoop(old(Abs()))
          == (if bytes != [] then ReadLoop(Abs().(decrypted := decrypted + bytes))
              else if answer.ReadFatal? then Abs().(state := Error, shutdown := true) else Abs())
        decreases |bytes| > 0, |openssl.script.readings|
      {
        decrypted := decrypted + bytes;
        bytes, answer := openssl.Read();
      }
      if answer.ReadFatal? {
        state := Error;
        shutdown := true;
      }
    }

    method OnRead(chunk: seq<T>)
      modifies this, openssl
      ensures Abs() == Next(old(Abs()), Read(chunk))
    {
      tcp := tcp + chunk;
      if !hasSsl {
        state := Error;
        return;
      }
      if state == Error || (state == Established && tcp == []) {
        return;
      }
      var fed := FeedReadBio(tcp);
      if !fed {
        return;
      }
      retrieved := retrieved + tcp;
      tcp := [];
      if state == Handshaking {
        HandleHandshake();
      } else {
        DecryptAndResume();
      }
    }

    /** The established branch of `onRead`, after feeding. */
    method DecryptAndResume()
      modifies this, openssl
      ensures Abs() == Drain(Flush(ReadLoop(old(Abs()))))
    {
      ReadPlain();
      FlushWriteBio();
      DrainPendingPlain();
    }

    method OnWriteComplete()
      modifies this, openssl
      ensures Abs() == Next(old(Abs()), WriteComplete)
    {
      if !hasSsl {
        return;
      }
      FlushWriteBio();
      if state == Handshaking {
        HandleHandshake();
        return;
      }
      if state == Established {
        DrainPendingPlain();
        FlushWriteBio();
      }
    }
  }
}
