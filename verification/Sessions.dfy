/**
  Sessions with sliding expiry: a session is refreshed by every request that presents its
  cookie, an expired one is dropped when it is looked up, and a purge drops all expired ones.
*/
module Sessions {
  import opened Common
  import opened Text

  type Id = string
  type Fields = map<string, string>

  /** Clock ticks in a second; a session's age is given in seconds. */
  const TICKS: int := 1_000_000_000
  const DEFAULT_MAX_AGE: int := 3600

  datatype SessionValue = SessionValue(data: Fields, expiry: int, maxAge: int) {
    predicate Expired(now: int) {
      now > expiry
    }

    function Refreshed(now: int): SessionValue {
      this.(expiry := now + maxAge * TICKS)
    }
  }

  /**
    Every session object ever created, since handlers may go on using one, and the ids under
    which the storage holds them.
  */
  datatype Store = Store(objects: map<Id, SessionValue>, stored: set<Id>)

  const EMPTY: Store := Store(map[], {})

  // ---- the cookie -----------------------------------------------------------------

  const NAME: string := "sessionId="

  /** `find(pattern)`: the first position where `pattern` occurs, or `|s|`. */
  function FindText(s: string, pattern: string): (r: nat)
    requires pattern != ""
    ensures r <= |s|
    ensures r < |s| ==> pattern <= s[r..]
    ensures forall i | 0 <= i < r :: !(pattern <= s[i..])
  {
    if s == "" then 0
    else if pattern <= s then 0
    else
      var t := FindText(s[1..], pattern);
      assert forall i | 0 < i <= t :: i <= |s| && s[i..] == s[1..][i - 1..];
      1 + t
  }

  /** `getSessionIdFromCookie` on the value of the Cookie header. */
  function IdFromCookie(cookie: string): Id {
    var pos := FindText(cookie, NAME);
    if cookie == "" || pos == |cookie| then ""
    else CookieValue(cookie[pos + |NAME|..])
  }

  /** What precedes the next semicolon. */
  function CookieValue(rest: string): string {
    rest[..Find(rest, ';')]
  }

  lemma IdAt(cookie: string, p: nat)
    requires p == FindText(cookie, NAME) < |cookie|
    ensures p + |NAME| <= |cookie| && IdFromCookie(cookie) == CookieValue(cookie[p + |NAME|..])
  {}

  function SetCookie(id: Id): string {
    NAME + id + "; Path=/; HttpOnly"
  }

  /** The cookie a client sends back: what precedes the attributes. */
  function Echo(setCookie: string): string {
    setCookie[..Find(setCookie, ';')]
  }

  predicate IsIdChar(c: char) {
    '0' <= c <= '9' || 'a' <= c <= 'f'
  }

  /** What `generateSessionId` produces: 32 hexadecimal digits. */
  predicate IsSessionId(id: Id) {
    |id| == 32 && forall i | 0 <= i < |id| :: IsIdChar(id[i])
  }

  lemma EchoIsPair(id: Id)
    requires IsSessionId(id)
    ensures Echo(SetCookie(id)) == NAME + id
  {
    NoSemicolon(id);
    assert SetCookie(id) == NAME + id + [';'] + " Path=/; HttpOnly";
    FindJoin(NAME + id, ';', " Path=/; HttpOnly");
  }

  /** Before `id` is sent, the first text that looks like the cookie's name already presents it. */
  predicate PresentsFirst(before: string, id: Id) {
    var p := FindText(before, NAME);
    p < |before| && id + ";" <= before[p + |NAME|..]
  }

  /**
    A client that echoes its cookie after `before` and ahead of `tail` presents the id it was
    issued if and only if `sessionId=` does not occur in `before`, or the id already follows it there.
  */
  lemma EchoPresentsIdIff(id: Id, before: string, tail: string)
    requires IsSessionId(id) && (tail == "" || tail[0] == ';')
    ensures IdFromCookie(before + (Echo(SetCookie(id)) + tail)) == id
      <==> FindText(before, NAME) == |before| || PresentsFirst(before, id)
  {
    EchoIsPair(id);
    Assoc(NAME, id, tail);
    if FindText(before, NAME) == |before| {
      NoEarlierName(id, before, tail);
    } else {
      EarlierName(id, before, tail);
    }
  }

  lemma NoEarlierName(id: Id, before: string, tail: string)
    requires IsSessionId(id) && (tail == "" || tail[0] == ';') && FindText(before, NAME) == |before|
    ensures IdFromCookie(before + (NAME + (id + tail))) == id
  {
    FirstName(before, id + tail);
    IdAt(before + (NAME + (id + tail)), |before|);
    AfterName(before, NAME, id + tail);
    IdThenTail(id, tail);
  }

  lemma EarlierName(id: Id, before: string, tail: string)
    requires IsSessionId(id) && FindText(before, NAME) < |before|
    ensures IdFromCookie(before + (NAME + (id + tail))) == id <==> PresentsFirst(before, id)
  {
    var p, pair := FindText(before, NAME), NAME + (id + tail);
    FirstName(before, id + tail);
    IdAt(before + pair, p);
    BehindFirst(before, p + |NAME|, pair);
    ValueBehindName(before[p + |NAME|..], id, tail);
  }

  lemma AfterName(before: string, name: string, after: string)
    ensures (before + (name + after))[|before| + |name|..] == after
  {}

  lemma BehindFirst(before: string, i: nat, pair: string)
    requires i <= |before|
    ensures (before + pair)[i..] == before[i..] + pair
  {}

  lemma IdThenTail(id: Id, tail: string)
    requires IsSessionId(id) && (tail == "" || tail[0] == ';')
    ensures CookieValue(id + tail) == id
  {
    NoSemicolon(id);
    FindUnique(id + tail, ';', |id|);
  }

  lemma ValueBehindName(b: string, id: Id, tail: string)
    requires IsSessionId(id)
    ensures CookieValue(b + (NAME + (id + tail))) == id <==> id + ";" <= b
  {
    var rest := b + (NAME + (id + tail));
    Assoc(NAME, id, tail);
    var f := Find(rest, ';');
    NoSemicolon(id);
    if id + ";" <= b {
      assert rest[|id|] == b[|id|] == (id + ";")[|id|];
      assert rest[..|id|] == b[..|id|] == (id + ";")[..|id|];
      FindUnique(rest, ';', |id|);
    }
    if rest[..f] == id {
      if f < |b| {
        assert b[..f] == rest[..f] && b[f] == ';';
        assert b[..f + 1] == id + ";";
      } else {
        NameInside(b, NAME + id, tail, f);
      }
    }
  }

  /** The first semicolon behind `b` and `pair` is not inside `pair`. */
  lemma NameInside(b: string, pair: string, tail: string, f: nat)
    requires ';' !in pair && f == Find(b + (pair + tail), ';') && f >= |b|
    ensures f >= |b| + |pair|
  {}

  lemma OccursIn(a: string, b: string, i: nat, pattern: string)
    requires i + |pattern| <= |a|
    ensures pattern <= a[i..] <==> pattern <= (a + b)[i..]
  {
    assert (a + b)[i..] == a[i..] + b;
  }

  lemma NotBefore(before: string, after: string, r: nat)
    requires r < FindText(before, NAME)
    ensures !(NAME <= (before + (NAME + after))[r..])
  {
    if r + |NAME| <= |before| {
      OccursIn(before, NAME + after, r, NAME);
    } else {
      NoOverlap(before, after, r);
    }
  }

  /** The name does not overlap itself, so it is found in `before` or where it was sent. */
  lemma FirstName(before: string, after: string)
    ensures FindText(before + (NAME + after), NAME) == FindText(before, NAME)
    ensures FindText(before, NAME) < |before| ==> FindText(before, NAME) + |NAME| <= |before|
  {
    var cookie, p := before + (NAME + after), FindText(before, NAME);
    if p < |before| {
      OccursIn(before, NAME + after, p, NAME);
    } else {
      assert cookie[p..] == NAME + after;
    }
    forall r: nat | r < p ensures !(NAME <= cookie[r..]) {
      NotBefore(before, after, r);
    }
  }

  lemma NoOverlap(before: string, after: string, r: nat)
    requires r < |before| < r + |NAME|
    ensures !(NAME <= (before + (NAME + after))[r..])
  {
    var cookie := before + (NAME + after);
    assert cookie[r..][9] == cookie[r + 9] == NAME[9 - (|before| - r)];
    assert NAME[9 - (|before| - r)] != NAME[9];
  }

  /** A cookie that comes first and whose name merely ends in the same text hides the session. */
  lemma EarlierNameWins(id: Id, before: string)
    requires IsSessionId(id) && before == "xsessionId=0; "
    ensures IdFromCookie(before + (Echo(SetCookie(id)) + "")) == "0"
  {
    EchoIsPair(id);
    var pair := NAME + (id + "");
    Assoc(NAME, id, "");
    FirstName(before, id + "");
    assert before[1..][..|NAME|] == NAME;
    IdAt(before + pair, 1);
    BehindFirst(before, 1 + |NAME|, pair);
    assert before[1 + |NAME|..] == "0; ";
    FindUnique("0; " + pair, ';', 1);
  }

  lemma NoSemicolon(id: Id)
    requires IsSessionId(id)
    ensures ';' !in id && ';' !in NAME + id
  {}

  // ---- one operation -----------------------------------------------------------------

  /** `load`: an expired session is removed and not returned. */
  function Load(s: Store, id: Id, now: int): (Store, bool)
    requires s.stored <= s.objects.Keys
  {
    if id !in s.stored then (s, false)
    else if s.objects[id].Expired(now) then (s.(stored := s.stored - {id}), false)
    else (s, true)
  }

  /** Whether the presented id leads to a session that is still good at the second reading of the clock. */
  function Presented(s: Store, id: Id, loadAt: int, checkAt: int): (Store, bool)
    requires s.stored <= s.objects.Keys
  {
    var (s1, loaded) := if id != "" then Load(s, id, loadAt) else (s, false);
    (s1, loaded && !s1.objects[id].Expired(checkAt))
  }

  function NewSession(s: Store, newId: Id, now: int): Store {
    Store(s.objects[newId := SessionValue(map[], 0, DEFAULT_MAX_AGE).Refreshed(now)], s.stored + {newId})
  }

  /** The answer to a request for its session: which one, its data, and the cookie that is set. */
  datatype Answer = Answer(id: Id, data: Fields, setCookie: Option<string>)

  /**
    `getSession`. The clock is read when the session is loaded, when it is checked again and
    when it is refreshed; `newId` is the id that would be generated.
  */
  function AfterGet(s: Store, cookie: string, loadAt: int, checkAt: int, refreshAt: int, newId: Id): (Store, Answer)
    requires s.stored <= s.objects.Keys
  {
    var id := IdFromCookie(cookie);
    var (s1, found) := Presented(s, id, loadAt, checkAt);
    if found then
      (s1.(objects := s1.objects[id := s1.objects[id].Refreshed(refreshAt)], stored := s1.stored + {id}),
       Answer(id, s1.objects[id].data, None))
    else
      (NewSession(s1, newId, refreshAt), Answer(newId, map[], Some(SetCookie(newId))))
  }

  datatype Event =
    | Get(cookie: string, loadAt: int, checkAt: int, refreshAt: int, newId: Id)
    | SetValue(id: Id, key: string, value: string)
    | RemoveValue(id: Id, key: string)
    | ClearValues(id: Id)
    | Destroy(id: Id)
    | CleanExpired(now: int)

  function Cleaned(s: Store, now: int): Store
    requires s.stored <= s.objects.Keys
  {
    s.(stored := set id | id in s.stored && !s.objects[id].Expired(now))
  }

  /** `setValue` saves the session again, whether or not it is still stored. */
  function Changed(s: Store, id: Id, data: Fields, save: bool): Store
    requires id in s.objects
  {
    Store(s.objects[id := s.objects[id].(data := data)], if save then s.stored + {id} else s.stored)
  }

  ghost predicate Enabled(s: Store, e: Event) {
    && s.stored <= s.objects.Keys
    && match e
       case Get(_, loadAt, checkAt, refreshAt, newId) =>
         loadAt <= checkAt <= refreshAt && IsSessionId(newId) && newId !in s.objects
       case SetValue(id, _, _) => id in s.objects
       case RemoveValue(id, _) => id in s.objects
       case ClearValues(id) => id in s.objects
       case Destroy(_) => true
       case CleanExpired(_) => true
  }

  function Next(s: Store, e: Event): (s': Store)
    requires Enabled(s, e)
    ensures s'.stored <= s'.objects.Keys
  {
    match e
    case Get(cookie, loadAt, checkAt, refreshAt, newId) => AfterGet(s, cookie, loadAt, checkAt, refreshAt, newId).0
    case SetValue(id, key, value) => Changed(s, id, s.objects[id].data[key := value], true)
    case RemoveValue(id, key) => Changed(s, id, s.objects[id].data - {key}, false)
    case ClearValues(id) => Changed(s, id, map[], false)
    case Destroy(id) => s.(stored := s.stored - {id})
    case CleanExpired(now) => Cleaned(s, now)
  }

  function Observe(s: Store, e: Event): seq<Answer>
    requires Enabled(s, e)
  {
    if e.Get? then [AfterGet(s, e.cookie, e.loadAt, e.checkAt, e.refreshAt, e.newId).1] else []
  }

  // ---- runs ---------------------------------------------------------------------------

  ghost predicate Possible(s: Store, events: seq<Event>)
    decreases |events|
  {
    s.stored <= s.objects.Keys
    && (events == [] || (Enabled(s, events[0]) && Possible(Next(s, events[0]), events[1..])))
  }

  /** What the clients of a run see, in order. */
  function Answers(s: Store, events: seq<Event>): seq<Answer>
    requires Possible(s, events)
    decreases |events|
  {
    if events == [] then [] else Observe(s, events[0]) + Answers(Next(s, events[0]), events[1..])
  }

  function Run(s: Store, events: seq<Event>): Store
    requires Possible(s, events)
    decreases |events|
  {
    if events == [] then s else Run(Next(s, events[0]), events[1..])
  }

  /** The clock does not go back: no reading is before `now` or before an earlier reading. */
  predicate Clocked(events: seq<Event>, now: int)
    decreases |events|
  {
    events == []
    || match events[0]
       case Get(_, loadAt, checkAt, refreshAt, _) =>
         now <= loadAt <= checkAt <= refreshAt && Clocked(events[1..], refreshAt)
       case CleanExpired(at) => now <= at && Clocked(events[1..], at)
       case _ => Clocked(events[1..], now)
  }

  /** The clock after an event. */
  function After(e: Event, now: int): int {
    match e
    case Get(_, _, _, refreshAt, _) => refreshAt
    case CleanExpired(at) => at
    case _ => now
  }

  // ---- the purge cannot be observed --------------------------------------------------------

  function WithoutCleans(events: seq<Event>): seq<Event> {
    if events == [] then []
    else (if events[0].CleanExpired? then [] else [events[0]]) + WithoutCleans(events[1..])
  }

  /** The purged store: the same objects, and what is missing from it has expired. */
  ghost predicate Purged(a: Store, b: Store, now: int) {
    && a.objects == b.objects && b.stored <= b.objects.Keys && a.stored <= b.stored
    && forall id | id in b.stored && id !in a.stored :: b.objects[id].Expired(now)
  }

  lemma GetPurged(a: Store, b: Store, now: int, e: Event)
    requires Purged(a, b, now) && e.Get? && now <= e.loadAt && Enabled(a, e)
    ensures Enabled(b, e) && Observe(a, e) == Observe(b, e) && Purged(Next(a, e), Next(b, e), e.refreshAt)
  {
    var id := IdFromCookie(e.cookie);
    var a1 := if id != "" then Load(a, id, e.loadAt) else (a, false);
    var b1 := if id != "" then Load(b, id, e.loadAt) else (b, false);
    assert a1.1 == b1.1;
    assert Purged(a1.0, b1.0, e.loadAt);
  }

  lemma OtherPurged(a: Store, b: Store, now: int, e: Event)
    requires Purged(a, b, now) && !e.Get? && !e.CleanExpired? && Enabled(a, e)
    ensures Enabled(b, e) && Observe(a, e) == Observe(b, e) && Purged(Next(a, e), Next(b, e), now)
  {}

  /** Purging at any times changes no answer and no session's data, because nothing expired is revived. */
  lemma {:induction false} PurgeUnobservable(a: Store, b: Store, now: int, events: seq<Event>)
    requires Purged(a, b, now) && Possible(a, events) && Clocked(events, now)
    ensures Possible(b, WithoutCleans(events))
    ensures Answers(a, events) == Answers(b, WithoutCleans(events))
    ensures Run(a, events).objects == Run(b, WithoutCleans(events)).objects
    decreases |events|
  {
    if events != [] {
      var e, rest := events[0], WithoutCleans(events[1..]);
      if e.CleanExpired? {
        assert WithoutCleans(events) == rest;
        PurgeUnobservable(Next(a, e), b, e.now, events[1..]);
      } else {
        if e.Get? {
          GetPurged(a, b, now, e);
        } else {
          OtherPurged(a, b, now, e);
        }
        PurgeUnobservable(Next(a, e), Next(b, e), After(e, now), events[1..]);
        assert WithoutCleans(events)[0] == e && WithoutCleans(events)[1..] == rest;
      }
    }
  }

  // ---- sliding continuity --------------------------------------------------------------------

  predicate IsVisit(e: Event, id: Id) {
    e.Get? && IdFromCookie(e.cookie) == id
  }

  /** Between two visits at most `maxAge` seconds pass, and nobody destroys the session. */
  predicate KeptAlive(events: seq<Event>, id: Id, last: int, maxAge: int)
    decreases |events|
  {
    events == []
    || (events[0] != Destroy(id)
        && if IsVisit(events[0], id) then
             events[0].checkAt <= last + maxAge * TICKS && KeptAlive(events[1..], id, events[0].refreshAt, maxAge)
           else KeptAlive(events[1..], id, last, maxAge))
  }

  /** The session is stored with the expiry its last refresh gave it, or its time is over. */
  ghost predicate Alive(s: Store, id: Id, last: int, maxAge: int, now: int) {
    && id != "" && id in s.objects
    && s.objects[id].maxAge == maxAge && s.objects[id].expiry == last + maxAge * TICKS
    && (id in s.stored || s.objects[id].Expired(now))
  }

  lemma VisitKeepsAlive(s: Store, e: Event, id: Id, last: int, maxAge: int, now: int)
    requires Alive(s, id, last, maxAge, now) && Enabled(s, e) && IsVisit(e, id)
    requires now <= e.loadAt && e.checkAt <= last + maxAge * TICKS
    ensures Observe(s, e) == [Answer(id, s.objects[id].data, None)]
    ensures Alive(Next(s, e), id, e.refreshAt, maxAge, e.refreshAt)
  {}

  /** A visit to a stored session finds it if and only if it comes before the session expires. */
  lemma VisitFindsIff(s: Store, e: Event, id: Id)
    requires Enabled(s, e) && IsVisit(e, id) && id != "" && id in s.stored
    ensures e.checkAt <= s.objects[id].expiry <==> Observe(s, e)[0].setCookie == None
    ensures Observe(s, e)[0]
      == (if e.checkAt <= s.objects[id].expiry then Answer(id, s.objects[id].data, None)
          else Answer(e.newId, map[], Some(SetCookie(e.newId))))
  {}

  lemma OtherVisitKeepsAlive(s: Store, e: Event, id: Id, last: int, maxAge: int, now: int)
    requires Alive(s, id, last, maxAge, now) && Enabled(s, e) && e.Get? && !IsVisit(e, id)
    requires now <= e.loadAt
    ensures Alive(Next(s, e), id, last, maxAge, e.refreshAt)
  {}

  lemma OtherKeepsAlive(s: Store, e: Event, id: Id, last: int, maxAge: int, now: int)
    requires Alive(s, id, last, maxAge, now) && Enabled(s, e) && !e.Get? && e != Destroy(id)
    requires now <= After(e, now)
    ensures Alive(Next(s, e), id, last, maxAge, After(e, now))
  {}

  /** A visit is answered with the session itself, and no cookie is set. */
  ghost predicate SameSession(answers: seq<Answer>, id: Id) {
    forall i | 0 <= i < |answers| :: answers[i].id == id && answers[i].setCookie == None
  }

  /** What the visits among the events are answered. */
  function VisitAnswers(s: Store, events: seq<Event>, id: Id): seq<Answer>
    requires Possible(s, events)
    decreases |events|
  {
    if events == [] then []
    else
      (if IsVisit(events[0], id) then Observe(s, events[0]) else [])
      + VisitAnswers(Next(s, events[0]), events[1..], id)
  }

  /**
    A client that comes back in time gets the same session every time, over any number of
    requests, whatever other clients, handlers and purges do in between.
  */
  lemma {:induction false} SlidingContinuity(s: Store, events: seq<Event>, id: Id, last: int, maxAge: int, now: int)
    requires Alive(s, id, last, maxAge, now) && Possible(s, events) && Clocked(events, now)
    requires KeptAlive(events, id, last, maxAge)
    ensures SameSession(VisitAnswers(s, events, id), id)
    decreases |events|
  {
    if events != [] {
      var e, s1 := events[0], Next(s, events[0]);
      if IsVisit(e, id) {
        VisitKeepsAlive(s, e, id, last, maxAge, now);
        SlidingContinuity(s1, events[1..], id, e.refreshAt, maxAge, e.refreshAt);
      } else {
        if e.Get? {
          OtherVisitKeepsAlive(s, e, id, last, maxAge, now);
        } else {
          OtherKeepsAlive(s, e, id, last, maxAge, now);
        }
        SlidingContinuity(s1, events[1..], id, last, maxAge, After(e, now));
      }
    }
  }

  /** From the request that creates the session on. */
  lemma ContinuityFromCreation(s: Store, first: Event, events: seq<Event>)
    requires Enabled(s, first) && first.Get? && Possible(Next(s, first), events)
    requires Observe(s, first)[0].setCookie.Some?
    requires Clocked(events, first.refreshAt)
    requires KeptAlive(events, first.newId, first.refreshAt, DEFAULT_MAX_AGE)
    ensures Observe(s, first)[0].setCookie == Some(SetCookie(first.newId))
    ensures SameSession(VisitAnswers(Next(s, first), events, first.newId), first.newId)
  {
    SlidingContinuity(Next(s, first), events, first.newId, first.refreshAt, DEFAULT_MAX_AGE, first.refreshAt);
  }

  // ---- destroyed sessions -----------------------------------------------------------------------

  predicate Saves(events: seq<Event>, id: Id) {
    exists i :: 0 <= i < |events| && events[i].SetValue? && events[i].id == id
  }

  /** A session that is not stored stays so as long as no handler sets a value in it. */
  lemma {:induction false} GoneStaysGone(s: Store, events: seq<Event>, id: Id)
    requires Possible(s, events) && id in s.objects && id !in s.stored && !Saves(events, id)
    ensures id !in Run(s, events).stored
    decreases |events|
  {
    if events != [] {
      var e := events[0];
      assert !(e.SetValue? && e.id == id);
      StepStaysGone(s, e, id);
      forall i | 0 <= i < |events[1..]| ensures !(events[1..][i].SetValue? && events[1..][i].id == id) {
        assert events[i + 1] == events[1..][i];
      }
      GoneStaysGone(Next(s, e), events[1..], id);
    }
  }

  lemma StepStaysGone(s: Store, e: Event, id: Id)
    requires Enabled(s, e) && id in s.objects && id !in s.stored && !(e.SetValue? && e.id == id)
    ensures id in Next(s, e).objects && id !in Next(s, e).stored
  {}

  /** The session is stored after the first `k` events. */
  ghost predicate StoredAfter(s: Store, events: seq<Event>, k: nat, id: Id) {
    k <= |events| && Possible(s, events[..k]) && id in Run(s, events[..k]).stored
  }

  /**
    Destroying a session does not end it for handlers that still hold it: over any run it is
    stored again at some time if and only if some event sets a value in it.
  */
  lemma DestroyedIffNotSaved(s: Store, id: Id, events: seq<Event>)
    requires s.stored <= s.objects.Keys && id in s.objects && Possible(Next(s, Destroy(id)), events)
    ensures (exists k: nat :: StoredAfter(Next(s, Destroy(id)), events, k, id)) <==> Saves(events, id)
  {
    var s1 := Next(s, Destroy(id));
    if k: nat :| StoredAfter(s1, events, k, id) {
      if !Saves(events, id) {
        GoneStaysGone(s1, events[..k], id);
      }
    }
    if Saves(events, id) {
      var i :| 0 <= i < |events| && events[i].SetValue? && events[i].id == id;
      SaveStores(s1, events, i, id);
    }
  }

  lemma {:induction false} SaveStores(s: Store, events: seq<Event>, i: nat, id: Id)
    requires Possible(s, events) && i < |events| && events[i].SetValue? && events[i].id == id
    ensures StoredAfter(s, events, i + 1, id)
    decreases i
  {
    var s1 := Next(s, events[0]);
    if i > 0 {
      SaveStores(s1, events[1..], i - 1, id);
      assert events[..i + 1][1..] == events[1..][..i];
    } else {
      assert events[..1][1..] == [];
      assert Possible(s1, []) && Run(s1, []) == s1;
    }
  }

  // ---- the data of a session ---------------------------------------------------------------------

  /** What a session holds under a key. */
  function Held(s: Store, id: Id, key: string): Option<string> {
    if id in s.objects && key in s.objects[id].data then Some(s.objects[id].data[key]) else None
  }

  /** What an event says about a key of a session: nothing, a new value, or that it is erased. */
  datatype Said = Nothing | Set(value: string) | Erased

  function SaidBy(e: Event, id: Id, key: string): Said {
    match e
    case SetValue(i, k, value) => if i == id && k == key then Set(value) else Nothing
    case RemoveValue(i, k) => if i == id && k == key then Erased else Nothing
    case ClearValues(i) => if i == id then Erased else Nothing
    case _ => Nothing
  }

  /** What the last event of a run that says anything about the key says. */
  function LastSaid(events: seq<Event>, id: Id, key: string): Said
    decreases |events|
  {
    if events == [] then Nothing
    else
      var last := SaidBy(events[|events| - 1], id, key);
      if last != Nothing then last else LastSaid(events[..|events| - 1], id, key)
  }

  function Telling(said: Said, before: Option<string>): Option<string> {
    match said
    case Nothing => before
    case Set(value) => Some(value)
    case Erased => None
  }

  lemma NextHeld(s: Store, e: Event, id: Id, key: string)
    requires Enabled(s, e) && id in s.objects
    ensures id in Next(s, e).objects
    ensures Held(Next(s, e), id, key) == Telling(SaidBy(e, id, key), Held(s, id, key))
  {}

  lemma {:induction false} LastSaidConcat(a: seq<Event>, b: seq<Event>, id: Id, key: string)
    ensures LastSaid(a + b, id, key) == (if LastSaid(b, id, key) != Nothing then LastSaid(b, id, key)
                                         else LastSaid(a, id, key))
    decreases |b|
  {
    if b == [] {
      assert a + b == a;
    } else {
      assert (a + b)[..|a + b| - 1] == a + b[..|b| - 1];
      LastSaidConcat(a, b[..|b| - 1], id, key);
    }
  }

  /** Over every run a session holds under each key what was said last about it, and otherwise what it held before. */
  lemma {:induction false} RunHeld(s: Store, events: seq<Event>, id: Id, key: string)
    requires Possible(s, events) && id in s.objects
    ensures id in Run(s, events).objects
    ensures Held(Run(s, events), id, key) == Telling(LastSaid(events, id, key), Held(s, id, key))
    decreases |events|
  {
    if events != [] {
      var e, rest := events[0], events[1..];
      NextHeld(s, e, id, key);
      RunHeld(Next(s, e), rest, id, key);
      assert events == [e] + rest;
      LastSaidConcat([e], rest, id, key);
      assert [e][..0] == [] && LastSaid([], id, key) == Nothing;
    }
  }

  /** What an answer shows under a key. */
  function Shown(a: Answer, key: string): Option<string> {
    if key in a.data then Some(a.data[key]) else None
  }

  /**
    Over every run: a visit in time shows under each key what was said last about it; what a
    handler set, until it is set again, removed or cleared, and nothing after it was erased.
  */
  lemma VisitShows(s: Store, events: seq<Event>, visit: Event, id: Id, key: string)
    requires Possible(s, events) && id in s.objects && id != ""
    requires Enabled(Run(s, events), visit) && IsVisit(visit, id)
    requires id in Run(s, events).stored && visit.checkAt <= Run(s, events).objects[id].expiry
    ensures var answers := Answers(Run(s, events), [visit]);
      && |answers| == 1 && answers[0].id == id && answers[0].setCookie == None
      && Shown(answers[0], key) == Telling(LastSaid(events, id, key), Held(s, id, key))
  {
    var s1 := Run(s, events);
    RunHeld(s, events, id, key);
    VisitFindsIff(s1, visit, id);
    assert [visit][1..] == [];
    assert Observe(s1, visit) + [] == Observe(s1, visit);
    assert Possible(Next(s1, visit), []) && Answers(Next(s1, visit), []) == [];
  }

  lemma {:induction false} PossibleConcat(s: Store, a: seq<Event>, b: seq<Event>)
    requires Possible(s, a) && Possible(Run(s, a), b)
    ensures Possible(s, a + b)
    decreases |a|
  {
    if a == [] {
      assert a + b == b;
    } else {
      PossibleConcat(Next(s, a[0]), a[1..], b);
      FirstOf(a, b);
    }
  }

  lemma FirstOf(a: seq<Event>, b: seq<Event>)
    requires a != []
    ensures a + b != [] && (a + b)[0] == a[0] && (a + b)[1..] == a[1..] + b
  {}

  /** The answers of a run followed by those of the events after it are the answers of both. */
  lemma {:induction false} AnswersConcat(s: Store, a: seq<Event>, b: seq<Event>)
    requires Possible(s, a) && Possible(Run(s, a), b) && Possible(s, a + b)
    ensures Answers(s, a + b) == Answers(s, a) + Answers(Run(s, a), b)
    decreases |a|
  {
    if a == [] {
      assert a + b == b && [] + Answers(s, b) == Answers(s, b);
    } else {
      var s1 := Next(s, a[0]);
      FirstOf(a, b);
      AnswersConcat(s1, a[1..], b);
      Assoc(Observe(s, a[0]), Answers(s1, a[1..]), Answers(Run(s1, a[1..]), b));
    }
  }

  /** A value is shown from the moment it is set until something else is said about its key. */
  lemma ValueShown(s: Store, id: Id, key: string, value: string, events: seq<Event>, visit: Event)
    requires id in s.objects && id != "" && Possible(s, [SetValue(id, key, value)] + events)
    requires forall e | e in events :: SaidBy(e, id, key) == Nothing
    requires var s1 := Run(s, [SetValue(id, key, value)] + events);
      Enabled(s1, visit) && IsVisit(visit, id) && id in s1.stored && visit.checkAt <= s1.objects[id].expiry
    ensures var all := [SetValue(id, key, value)] + events;
      && Possible(s, all + [visit]) && |Answers(s, all + [visit])| > 0
      && var a := Answers(s, all + [visit])[|Answers(s, all + [visit])| - 1];
         a.id == id && Shown(a, key) == Some(value)
  {
    var all := [SetValue(id, key, value)] + events;
    SilentEvents(events, id, key);
    LastSaidConcat([SetValue(id, key, value)], events, id, key);
    VisitShows(s, all, visit, id, key);
    assert Possible(Run(s, all), [visit]) by {
      assert [visit][1..] == [];
    }
    PossibleConcat(s, all, [visit]);
    AnswersConcat(s, all, [visit]);
  }

  lemma {:induction false} SilentEvents(events: seq<Event>, id: Id, key: string)
    requires forall e | e in events :: SaidBy(e, id, key) == Nothing
    ensures LastSaid(events, id, key) == Nothing
    decreases |events|
  {
    if events != [] {
      assert events[|events| - 1] in events;
      SilentEvents(events[..|events| - 1], id, key);
    }
  }

  /** A new session holds nothing. */
  lemma NewHoldsNothing(s: Store, e: Event, key: string)
    requires Enabled(s, e) && e.Get? && Observe(s, e)[0].setCookie.Some?
    ensures Observe(s, e)[0].id == e.newId && Held(Next(s, e), e.newId, key) == None
  {}

  // ---- the classes --------------------------------------------------------------------------------

  class Session {
    const id: Id
    const maxAge: int
    var data: Fields
    var expiry: int

    ghost function Value(): SessionValue
      reads this
    {
      SessionValue(data, expiry, maxAge)
    }

    constructor (id: Id, maxAge: int, now: int)
      ensures this.id == id && Value() == SessionValue(map[], 0, maxAge).Refreshed(now)
    {
      this.id := id;
      this.maxAge := maxAge;
      data := map[];
      expiry := now + maxAge * TICKS;
    }

    predicate IsExpired(now: int)
      reads this
    {
      now > expiry
    }

    method Refresh(now: int)
      modifies this
      ensures Value() == old(Value()).Refreshed(now)
    {
      expiry := now + maxAge * TICKS;
    }
  }

  class MemorySessionStorage {
    var sessions: map<Id, Session>

    constructor ()
      ensures sessions == map[]
    {
      sessions := map[];
    }

    method Save(session: Session)
      modifies this
      ensures sessions == old(sessions)[session.id := session]
    {
      sessions := sessions[session.id := session];
    }

    method Load(id: Id, now: int) returns (session: Option<Session>)
      modifies this
      ensures session
        == (if id in old(sessions) && !old(sessions)[id].IsExpired(now) then Some(old(sessions)[id]) else None)
      ensures sessions == (if session.None? then old(sessions) - {id} else old(sessions))
    {
      session := None;
      if id in sessions {
        if !sessions[id].IsExpired(now) {
          session := Some(sessions[id]);
        } else {
          sessions := sessions - {id};
        }
      }
      assert id !in old(sessions) ==> old(sessions) - {id} == old(sessions);
    }

    method Remove(id: Id)
      modifies this
      ensures sessions == old(sessions) - {id}
    {
      sessions := sessions - {id};
    }

    /** The erasing iteration: every stored session is looked at once, in some order. */
    method CleanExpired(now: int)
      modifies this
      ensures sessions == map id | id in old(sessions) && !old(sessions)[id].IsExpired(now) :: old(sessions)[id]
    {
      var ahead := sessions.Keys;
      while ahead != {}
        invariant ahead <= sessions.Keys
        invariant sessions
          == map id | id in old(sessions) && (id in ahead || !old(sessions)[id].IsExpired(now)) :: old(sessions)[id]
        decreases ahead
      {
        var id :| id in ahead;
        ahead := ahead - {id};
        if sessions[id].IsExpired(now) {
          sessions := sessions - {id};
        }
      }
    }
  }

  class SessionManager {
    const storage: MemorySessionStorage

    /** Every session this manager ever created, by id. */
    ghost var created: map<Id, Session>

    ghost predicate Valid()
      reads this, storage, created.Values
    {
      && (forall id | id in created :: created[id].id == id)
      && (forall id | id in storage.sessions :: id in created && storage.sessions[id] == created[id])
    }

    ghost function Abs(): Store
      reads this, storage, created.Values
    {
      Store(map id | id in created :: created[id].Value(), storage.sessions.Keys)
    }

    constructor ()
      ensures Valid() && Abs() == EMPTY && fresh(storage)
    {
      storage := new MemorySessionStorage();
      created := map[];
    }

    method LoadSession(id: Id, now: int) returns (session: Option<Session>)
      requires Valid()
      modifies storage
      ensures Valid() && Abs() == Load(old(Abs()), id, now).0 && session.Some? == Load(old(Abs()), id, now).1
      ensures session.Some? ==> id in created && session.value == created[id]
    {
      session := storage.Load(id, now);
      assert Abs().objects == old(Abs().objects);
      assert id !in old(storage.sessions) ==> storage.sessions.Keys == old(storage.sessions).Keys;
      assert session.None? ==> storage.sessions.Keys == old(storage.sessions).Keys - {id};
    }

    /** The part of `getSession` that looks for a session to go on with. */
    method FindSession(id: Id, loadAt: int, checkAt: int) returns (session: Option<Session>)
      requires Valid()
      modifies storage
      ensures Valid() && Abs() == Presented(old(Abs()), id, loadAt, checkAt).0
      ensures session.Some? == Presented(old(Abs()), id, loadAt, checkAt).1
      ensures session.Some? ==> id in created && session.value == created[id]
    {
      session := None;
      if id != "" {
        session := LoadSession(id, loadAt);
      }
      if session.Some? && session.value.IsExpired(checkAt) {
        session := None;
      }
    }

    method CreateSession(newId: Id, now: int) returns (session: Session)
      requires Valid() && newId !in created
      modifies this
      ensures Valid() && fresh(session) && created == old(created)[newId := session] && session.id == newId
      ensures Abs() == old(Abs()).(
        objects := old(Abs()).objects[newId := SessionValue(map[], 0, DEFAULT_MAX_AGE).Refreshed(now)])
    {
      session := new Session(newId, DEFAULT_MAX_AGE, now);
      created := created[newId := session];
    }

    /** Saves a session in the storage. */
    method UpdateSession(session: Session)
      requires Valid() && session.id in created && created[session.id] == session
      modifies storage
      ensures Valid() && Abs() == old(Abs()).(stored := old(Abs()).stored + {session.id})
    {
      storage.Save(session);
      assert Abs().objects == old(Abs().objects);
    }

    /** The end of `getSession`: refresh and save. */
    method KeepSession(session: Session, now: int)
      requires Valid() && session.id in created && created[session.id] == session
      modifies storage, session
      ensures Valid()
      ensures Abs() == Store(old(Abs()).objects[session.id := old(session.Value()).Refreshed(now)],
                             old(Abs()).stored + {session.id})
      ensures session.Value() == old(session.Value()).Refreshed(now)
    {
      session.Refresh(now);
      UpdateSession(session);
    }

    method GetSession(cookie: string, loadAt: int, checkAt: int, refreshAt: int, newId: Id)
        returns (session: Session, setCookie: Option<string>)
      requires Valid() && newId !in created
      modifies this, storage, created.Values
      ensures Valid()
      ensures Abs() == AfterGet(old(Abs()), cookie, loadAt, checkAt, refreshAt, newId).0
      ensures var answer := AfterGet(old(Abs()), cookie, loadAt, checkAt, refreshAt, newId).1;
        session.id == answer.id && session.data == answer.data && setCookie == answer.setCookie
        && session.id in created && created[session.id] == session
    {
      var sessionId := IdFromCookie(cookie);
      var found := FindSession(sessionId, loadAt, checkAt);
      ghost var s1 := Abs();
      if found.None? {
        session := CreateSession(newId, refreshAt);
        setCookie := Some(SetCookie(newId));
        assert session.Value() == Abs().objects[newId];
      } else {
        session := found.value;
        setCookie := None;
        assert session.Value() == s1.objects[sessionId];
      }
      KeepSession(session, refreshAt);
    }

    method DestroySession(id: Id)
      requires Valid()
      modifies storage
      ensures Valid() && Abs() == Next(old(Abs()), Destroy(id))
    {
      storage.Remove(id);
      assert Abs().objects == old(Abs().objects);
    }

    method CleanExpiredSessions(now: int)
      requires Valid()
      modifies storage
      ensures Valid() && Abs() == Next(old(Abs()), Event.CleanExpired(now))
    {
      storage.CleanExpired(now);
      assert Abs().objects == old(Abs().objects);
    }

    /** `Session::setValue`, which saves the session through its manager. */
    method SetValue(session: Session, key: string, value: string)
      requires Valid() && session.id in created && created[session.id] == session
      modifies storage, session
      ensures Valid() && Abs() == Next(old(Abs()), Event.SetValue(session.id, key, value))
    {
      session.data := session.data[key := value];
      UpdateSession(session);
    }

    /** `Session::remove`, which does not save. */
    method RemoveValue(session: Session, key: string)
      requires Valid() && session.id in created && created[session.id] == session
      modifies session
      ensures Valid() && Abs() == Next(old(Abs()), Event.RemoveValue(session.id, key))
    {
      session.data := session.data - {key};
    }

    /** `Session::clear`, which does not save. */
    method ClearValues(session: Session)
      requires Valid() && session.id in created && created[session.id] == session
      modifies session
      ensures Valid() && Abs() == Next(old(Abs()), Event.ClearValues(session.id))
    {
      session.data := map[];
    }
  }
}
