/**
  The router: two exact tables and two tables of dynamic routes bucketed by the static
  prefix of their pattern. Routing through the buckets is proved to choose what a scan
  over all registrations, in registration order, would choose.
*/
module Routing {
  import opened Common
  import opened Text
  import opened Requests
  import opened RoutePatterns

  // ---- index keys -----------------------------------------------------------------

  predicate MarkerAt(s: string, i: nat) {
    i + 1 < |s| && s[i] == '/' && s[i + 1] == ':'
  }

  /** `find("/:")`, or `|s|`. */
  function FindMarker(s: string): (r: nat)
    ensures r <= |s|
    ensures r < |s| ==> MarkerAt(s, r)
    ensures forall i: nat | i < r :: !MarkerAt(s, i)
  {
    if |s| < 2 then |s|
    else if MarkerAt(s, 0) then 0
    else
      var t := FindMarker(s[1..]);
      assert forall i: nat | 0 < i <= t :: MarkerAt(s, i) == MarkerAt(s[1..], i - 1);
      1 + t
  }

  /** `routeStaticPrefixFromPattern` */
  function StaticPrefix(pattern: string): string {
    var m := FindMarker(pattern);
    if m == |pattern| then "" else pattern[..m + 1]
  }

  /** Up to and with the slash before the first parameter; nothing without parameters. */
  lemma StaticPrefixShape(front: string, rest: string)
    requires forall i | 0 <= i < |front| :: !MarkerAt(front + "/", i)
    ensures StaticPrefix(front + "/:" + rest) == front + "/"
    ensures (forall i | 0 <= i < |rest| :: !MarkerAt(rest, i)) ==> StaticPrefix(rest) == ""
  {
    var pattern := front + "/:" + rest;
    assert MarkerAt(pattern, |front|);
    forall i | 0 <= i < |front| ensures !MarkerAt(pattern, i) {
      assert !MarkerAt(front + "/", i);
      assert pattern == front + "/" + (":" + rest);
      assert pattern[i] == (front + "/")[i] && pattern[i + 1] == (front + "/")[i + 1];
    }
    assert pattern[..|front| + 1] == front + "/";
  }

  predicate SlashKey(path: string, key: string, i: int) {
    1 <= i < |path| && path[i] == '/' && key == path[..i + 1]
  }

  /** The keys under which the dynamic routes of a path are looked up. */
  ghost predicate IsLookupKey(path: string, key: string) {
    || key == ""
    || (path != "" && path[0] == '/' && (key == path || exists i :: SlashKey(path, key, i)))
  }

  /** A pattern without a `/:`, or one that starts with a slash and has its first `/:` later. */
  predicate Indexable(pattern: string) {
    var m := FindMarker(pattern);
    m == |pattern| || (1 <= m && pattern[0] == '/')
  }

  /** The text up to the first `/:` is literal, so a matching path starts with it. */
  lemma {:induction false} MatchStartsWithPrefix(pattern: string, path: string)
    requires Match(Tokens(pattern), path).Some? && FindMarker(pattern) < |pattern|
    ensures var m := FindMarker(pattern);
      m + 1 < |path| && path[..m + 1] == pattern[..m + 1]
    decreases |pattern|
  {
    TokensWholeSegments(pattern);
    if FindMarker(pattern) == 0 {
      MarkerMatchIsLonger(pattern, path);
    } else {
      MatchStartsWithPrefix(pattern[1..], path[1..]);
      var m := FindMarker(pattern);
      assert FindMarker(pattern[1..]) == m - 1;
      assert path[..m + 1] == [path[0]] + path[1..][..m];
      assert pattern[..m + 1] == [pattern[0]] + pattern[1..][..m];
    }
  }

  /** `/:` is followed by a capture or stands for itself; either way the path goes on after its slash. */
  lemma MarkerMatchIsLonger(pattern: string, path: string)
    requires Match(Tokens(pattern), path).Some? && MarkerAt(pattern, 0)
    ensures |path| > 1 && path[0] == '/'
  {
    var ts := Tokens(pattern);
    if StartsParameter(pattern) {
      assert ts[0] == Lit('/') && ts[1..][0] == Capture;
    } else {
      TokensWholeSegments(pattern[1..]);
      assert ts[0] == Lit('/') && ts[1..] == Tokens(pattern[1..]);
    }
  }

  /**
    The index is complete exactly for the indexable patterns: the bucket of a pattern is
    among those searched for a path it matches if and only if the pattern is indexable.
  */
  lemma IndexedIff(pattern: string, path: string)
    requires Match(Tokens(pattern), path).Some?
    ensures IsLookupKey(path, StaticPrefix(pattern)) <==> Indexable(pattern)
  {
    var m := FindMarker(pattern);
    if m < |pattern| {
      MatchStartsWithPrefix(pattern, path);
      assert path[0] == path[..m + 1][0] == pattern[..m + 1][0] == pattern[0];
      assert path[m] == path[..m + 1][m] == pattern[..m + 1][m] == pattern[m];
      if m == 0 {
        assert StaticPrefix(pattern) == "/";
        assert forall i :: !SlashKey(path, "/", i);
      } else if pattern[0] == '/' {
        assert SlashKey(path, StaticPrefix(pattern), m);
      }
    }
  }

  /** The pattern `/:id` matches `/7` but its bucket is never searched. */
  lemma RootParameterUnreachable(pattern: string, path: string)
    requires pattern == "/:id" && path == "/7"
    ensures Match(Tokens(pattern), path).Some? && !IsLookupKey(path, StaticPrefix(pattern))
  {
    MatchBySegments(pattern, path);
    SplitAt(pattern, "", ":id");
    SplitAt(path, "", "7");
    IndexedIff(pattern, path);
  }

  lemma SplitAt(s: string, first: string, second: string)
    requires s == first + "/" + second && '/' !in first && '/' !in second
    ensures Split(s) == [first, second]
  {
    FindJoin(first, '/', second);
    FindUnique(second, '/', |second|);
    assert Split(second) == [second];
  }

  // ---- the lookup order ---------------------------------------------------------------

  ghost predicate NonIncreasing(keys: seq<string>) {
    forall i, j | 0 <= i < j < |keys| :: |keys[i]| >= |keys[j]|
  }

  ghost predicate Decreasing(keys: seq<string>) {
    forall i, j | 0 <= i < j < |keys| :: |keys[i]| > |keys[j]|
  }

  ghost predicate AllPrefixes(keys: seq<string>, path: string) {
    forall k | k in keys :: k <= path
  }

  function InsertBySize(keys: seq<string>, key: string): (r: seq<string>)
    ensures forall k :: k in r <==> k == key || k in keys
  {
    if keys == [] || |key| >= |keys[0]| then [key] + keys
    else [keys[0]] + InsertBySize(keys[1..], key)
  }

  /** `std::sort` by decreasing size. */
  function SortBySize(keys: seq<string>): (r: seq<string>)
    ensures forall k :: k in r <==> k in keys
  {
    if keys == [] then [] else InsertBySize(SortBySize(keys[1..]), keys[0])
  }

  lemma {:induction false} InsertKeepsOrder(keys: seq<string>, key: string)
    requires NonIncreasing(keys)
    ensures NonIncreasing(InsertBySize(keys, key))
    decreases |keys|
  {
    if keys != [] && |key| < |keys[0]| {
      var r := InsertBySize(keys[1..], key);
      InsertKeepsOrder(keys[1..], key);
      forall j | 0 <= j < |r| ensures |keys[0]| >= |r[j]| {
        assert r[j] in r;
      }
    }
  }

  lemma {:induction false} SortSorts(keys: seq<string>)
    ensures NonIncreasing(SortBySize(keys))
    decreases |keys|
  {
    if keys != [] {
      SortSorts(keys[1..]);
      InsertKeepsOrder(SortBySize(keys[1..]), keys[0]);
    }
  }

  /** `std::unique` followed by `erase`: of equal neighbours one is kept. */
  function Unique(keys: seq<string>): (r: seq<string>)
    ensures forall k :: k in r <==> k in keys
  {
    if |keys| < 2 then keys
    else if keys[0] == keys[1] then
      assert keys[0] in keys[1..] by { assert keys[1..][0] == keys[0]; }
      Unique(keys[1..])
    else [keys[0]] + Unique(keys[1..])
  }

  /** Prefixes of one path that have the same size are equal, so no size is left twice. */
  lemma {:induction false} UniqueDecreases(keys: seq<string>, path: string)
    requires NonIncreasing(keys) && AllPrefixes(keys, path)
    ensures Decreasing(Unique(keys))
    decreases |keys|
  {
    if |keys| >= 2 {
      var r := Unique(keys[1..]);
      assert AllPrefixes(keys[1..], path) by {
        assert forall k :: k in keys[1..] ==> k in keys;
      }
      UniqueDecreases(keys[1..], path);
      if keys[0] != keys[1] {
        assert keys[0] in keys && keys[1] in keys;
        assert keys[0] <= path && keys[1] <= path;
        forall j | 0 <= j < |r| ensures |keys[0]| > |r[j]| {
          assert r[j] in r;
          assert |keys[0]| > |keys[1]|;
          var i :| 1 <= i < |keys| && keys[i] == r[j];
        }
      }
    }
  }

  /** All the lookup keys of a path, longest first, none twice. */
  ghost predicate LookupKeys(path: string, keys: seq<string>) {
    Decreasing(keys) && forall k :: k in keys <==> IsLookupKey(path, k)
  }

  /** `pathPrefixesForLookup` */
  method PathPrefixesForLookup(path: string) returns (keys: seq<string>)
    ensures LookupKeys(path, keys)
  {
    keys := [""];
    if path == "" || path[0] != '/' {
      return;
    }
    for i := 1 to |path|
      invariant AllPrefixes(keys, path)
      invariant forall k :: k in keys <==> k == "" || exists j :: j < i && SlashKey(path, k, j)
    {
      if path[i] == '/' {
        assert SlashKey(path, path[..i + 1], i);
        keys := keys + [path[..i + 1]];
      }
    }
    keys := keys + [path];
    var sorted := SortBySize(keys);
    SortSorts(keys);
    UniqueDecreases(sorted, path);
    keys := Unique(sorted);
  }

  // ---- registrations ---------------------------------------------------------------------

  datatype Kind = Handler | Callback

  datatype Registration<T> =
    Registration(kind: Kind, dynamic: bool, verb: Method, path: string, target: T)

  type RouteKey = (Method, string)

  /** The target of an exact route; registering a route again replaces its target. */
  function ExactTarget<T>(log: seq<Registration<T>>, kind: Kind, key: RouteKey): Option<T>
    decreases |log|
  {
    if log == [] then None
    else
      var last := log[|log| - 1];
      if !last.dynamic && last.kind == kind && (last.verb, last.path) == key then Some(last.target)
      else ExactTarget(log[..|log| - 1], kind, key)
  }

  /** Whether a dynamic route fits a request; `indexed` asks for its pattern to be indexable too. */
  predicate Fits<T>(r: Registration<T>, kind: Kind, m: Method, path: string, indexed: bool) {
    && r.dynamic && r.kind == kind && r.verb == m
    && Match(Tokens(r.path), path).Some?
    && (indexed ==> Indexable(r.path))
  }

  function PrefixSize<T>(r: Registration<T>): nat {
    |StaticPrefix(r.path)|
  }

  /** What a scan looks at: whether each route fits, and how long its static prefix is. */
  datatype Entry = Entry(fits: bool, size: nat)

  function Entries<T>(log: seq<Registration<T>>, kind: Kind, m: Method, path: string, indexed: bool): seq<Entry> {
    seq(|log|, i requires 0 <= i < |log| => Entry(Fits(log[i], kind, m, path, indexed), PrefixSize(log[i])))
  }

  /** The longest static prefix wins, then the earliest. */
  function ScanEntries(es: seq<Entry>): (r: Option<nat>)
    ensures r.Some? ==> r.value < |es|
  {
    if es == [] then None
    else
      var n := |es| - 1;
      var best := ScanEntries(es[..n]);
      if !es[n].fits || (best.Some? && es[best.value].size >= es[n].size) then best else Some(n)
  }

  ghost predicate BestEntry(es: seq<Entry>, i: nat) {
    && i < |es| && es[i].fits
    && forall j | 0 <= j < |es| && es[j].fits ::
         es[j].size < es[i].size || (es[j].size == es[i].size && i <= j)
  }

  lemma {:induction false} ScanFindsBestEntry(es: seq<Entry>)
    ensures var r := ScanEntries(es);
      if r.Some? then BestEntry(es, r.value) else forall j | 0 <= j < |es| :: !es[j].fits
  {
    if es != [] {
      ScanFindsBestEntry(es[..|es| - 1]);
    }
  }

  /** A scan over all registrations in registration order. */
  function Scan<T>(log: seq<Registration<T>>, kind: Kind, m: Method, path: string, indexed: bool): (r: Option<nat>)
    ensures r.Some? ==> r.value < |log|
  {
    ScanEntries(Entries(log, kind, m, path, indexed))
  }

  predicate Beats<T>(log: seq<Registration<T>>, i: nat, j: nat)
    requires i < |log| && j < |log|
  {
    PrefixSize(log[j]) < PrefixSize(log[i]) || (PrefixSize(log[j]) == PrefixSize(log[i]) && i <= j)
  }

  /** Route `i` fits, and every other that fits has a shorter prefix, or as long a one and comes later. */
  ghost predicate Best<T>(log: seq<Registration<T>>, kind: Kind, m: Method, path: string, indexed: bool, i: nat) {
    && i < |log| && Fits(log[i], kind, m, path, indexed)
    && forall j | 0 <= j < |log| && Fits(log[j], kind, m, path, indexed) :: Beats(log, i, j)
  }

  lemma ScanFindsBest<T>(log: seq<Registration<T>>, kind: Kind, m: Method, path: string, indexed: bool)
    ensures var r := Scan(log, kind, m, path, indexed);
      if r.Some? then Best(log, kind, m, path, indexed, r.value)
      else forall j | 0 <= j < |log| :: !Fits(log[j], kind, m, path, indexed)
  {
    var es := Entries(log, kind, m, path, indexed);
    ScanFindsBestEntry(es);
    assert forall j | 0 <= j < |log| ::
      es[j] == Entry(Fits(log[j], kind, m, path, indexed), PrefixSize(log[j]));
  }

  lemma BestIsScan<T>(log: seq<Registration<T>>, kind: Kind, m: Method, path: string, indexed: bool, i: nat)
    requires Best(log, kind, m, path, indexed, i)
    ensures Scan(log, kind, m, path, indexed) == Some(i)
  {
    ScanFindsBest(log, kind, m, path, indexed);
  }

  /**
    Looking only at indexable patterns gives the plain scan's choice if and only if that
    choice is itself indexable.
  */
  lemma IndexedScanIff<T>(log: seq<Registration<T>>, kind: Kind, m: Method, path: string)
    ensures var plain := Scan(log, kind, m, path, false);
      Scan(log, kind, m, path, true) == plain
      <==> (plain.Some? ==> Indexable(log[plain.value].path))
  {
    ScanFindsBest(log, kind, m, path, false);
    ScanFindsBest(log, kind, m, path, true);
    var plain := Scan(log, kind, m, path, false);
    if plain.Some? && Indexable(log[plain.value].path) {
      BestIsScan(log, kind, m, path, true, plain.value);
    }
  }

  // ---- the answer -------------------------------------------------------------------------

  /** Which target is called, and the request it is called with. */
  datatype Answer<T> = NotFound | Call(kind: Kind, target: T, request: Request)

  function ParamName(i: nat): string {
    "param" + ToDecimal(i)
  }

  function WithParams(m: Fields, caps: seq<string>): Fields
    decreases |caps|
  {
    if caps == [] then m
    else
      var n := |caps| - 1;
      WithParams(m, caps[..n])[ParamName(n + 1) := caps[n]]
  }

  function CallMatched<T>(r: Registration<T>, req: Request): Answer<T>
    requires Match(Tokens(r.path), req.path).Some?
  {
    var caps := Match(Tokens(r.path), req.path).value;
    Call(r.kind, r.target, req.(pathParameters := WithParams(req.pathParameters, caps)))
  }

  /** Routing without an index. */
  function NaiveRoute<T>(log: seq<Registration<T>>, req: Request, indexed: bool): Answer<T> {
    var key := (req.verb, req.path);
    var h := ExactTarget(log, Handler, key);
    var c := ExactTarget(log, Callback, key);
    if h.Some? then Call(Handler, h.value, req)
    else if c.Some? then Call(Callback, c.value, req)
    else
      var dh := Scan(log, Handler, req.verb, req.path, indexed);
      var dc := Scan(log, Callback, req.verb, req.path, indexed);
      ScanFindsBest(log, Handler, req.verb, req.path, indexed);
      ScanFindsBest(log, Callback, req.verb, req.path, indexed);
      if dh.Some? then CallMatched(log[dh.value], req)
      else if dc.Some? then CallMatched(log[dc.value], req)
      else NotFound
  }

  /** With indexable patterns only, the index changes no answer. */
  lemma IndexUnobservable<T>(log: seq<Registration<T>>, req: Request)
    requires forall r | r in log && r.dynamic :: Indexable(r.path)
    ensures NaiveRoute(log, req, true) == NaiveRoute(log, req, false)
  {
    IndexedScanIff(log, Handler, req.verb, req.path);
    IndexedScanIff(log, Callback, req.verb, req.path);
    ScanFindsBest(log, Handler, req.verb, req.path, false);
    ScanFindsBest(log, Callback, req.verb, req.path, false);
  }

  // ---- path parameters ----------------------------------------------------------------------

  /** `extractPathParameters` on the copy of the request that the target is called with. */
  method ExtractPathParameters(caps: seq<string>, request: Request) returns (r: Request)
    ensures r == request.(pathParameters := WithParams(request.pathParameters, caps))
  {
    r := request;
    for i := 0 to |caps|
      invariant r == request.(pathParameters := WithParams(request.pathParameters, caps[..i]))
    {
      assert caps[..i + 1][..i] == caps[..i];
      r := r.(pathParameters := r.pathParameters[ParamName(i + 1) := caps[i]]);
    }
    assert caps[..|caps|] == caps;
  }

  lemma ParamNameInjective(i: nat, j: nat)
    requires ParamName(i) == ParamName(j)
    ensures i == j
  {
    assert ParamName(i)[5..] == ToDecimal(i) && ParamName(j)[5..] == ToDecimal(j);
  }

  /** `param1` to `paramk` hold the captures in order. */
  lemma {:induction false} ParamsHoldCaptures(m: Fields, caps: seq<string>, i: nat)
    requires i < |caps|
    ensures ParamName(i + 1) in WithParams(m, caps) && WithParams(m, caps)[ParamName(i + 1)] == caps[i]
    decreases |caps|
  {
    var n := |caps| - 1;
    if i < n {
      ParamsHoldCaptures(m, caps[..n], i);
      if ParamName(i + 1) == ParamName(n + 1) {
        ParamNameInjective(i + 1, n + 1);
      }
    }
  }

  /** `getPathParameters` */
  function ParamOf(m: Fields, key: string): string {
    if key in m then m[key] else ""
  }

  /** The values of `param1` to `paramk`. */
  function FirstParams(m: Fields, k: nat): seq<string> {
    seq(k, (i: nat) => ParamOf(m, ParamName(i + 1)))
  }

  lemma FirstParamsAreCaptures(m: Fields, caps: seq<string>)
    ensures FirstParams(WithParams(m, caps), |caps|) == caps
  {
    forall i | 0 <= i < |caps| ensures ParamOf(WithParams(m, caps), ParamName(i + 1)) == caps[i] {
      ParamsHoldCaptures(m, caps, i);
    }
  }

  /** The parameters a target receives, put back into its pattern, spell the request's path. */
  lemma ParamsRebuildPath(pattern: string, path: string, m: Fields)
    requires Match(Tokens(pattern), path).Some?
    ensures var params := WithParams(m, Match(Tokens(pattern), path).value);
      Fill(Tokens(pattern), FirstParams(params, CaptureCount(Tokens(pattern)))) == path
  {
    MatchDenotes(Tokens(pattern), path);
    FirstParamsAreCaptures(m, Match(Tokens(pattern), path).value);
  }

  // ---- what an answer must be ---------------------------------------------------------------

  /** Registration `i` is an exact route for the request. */
  ghost predicate ExactFits<T>(log: seq<Registration<T>>, kind: Kind, req: Request, i: int) {
    0 <= i < |log| && !log[i].dynamic && log[i].kind == kind && log[i].verb == req.verb && log[i].path == req.path
  }

  ghost predicate HasExact<T>(log: seq<Registration<T>>, kind: Kind, req: Request) {
    exists i :: ExactFits(log, kind, req, i)
  }

  /** It is one, and no later registration of its kind replaces it. */
  ghost predicate LatestExact<T>(log: seq<Registration<T>>, kind: Kind, req: Request, i: int) {
    ExactFits(log, kind, req, i) && forall j | i < j < |log| :: !ExactFits(log, kind, req, j)
  }

  ghost predicate HasDynamic<T>(log: seq<Registration<T>>, kind: Kind, req: Request) {
    exists i :: 0 <= i < |log| && Fits(log[i], kind, req.verb, req.path, true)
  }

  /** The request is passed on with `param1` to `paramk` set to the captures, and otherwise as it is. */
  ghost predicate WithCaptures(pattern: string, req: Request, passed: Request) {
    var m := Match(Tokens(pattern), req.path);
    && m.Some?
    && passed == req.(pathParameters := passed.pathParameters)
    && (forall i | 0 <= i < |m.value| :: CaptureSet(passed.pathParameters, i, m.value[i]))
    && (forall key | !IsParamName(key, |m.value|) ::
          (key in passed.pathParameters <==> key in req.pathParameters)
          && ParamOf(passed.pathParameters, key) == ParamOf(req.pathParameters, key))
  }

  predicate CaptureSet(params: Fields, i: nat, value: string) {
    var key := "param" + ToDecimal(i + 1);
    key in params && params[key] == value
  }

  ghost predicate IsParamName(key: string, k: nat) {
    exists i: nat :: 1 <= i <= k && key == "param" + ToDecimal(i)
  }

  /** An exact route calls its target with the request itself; a handler goes before a callback. */
  ghost predicate ExactCall<T>(log: seq<Registration<T>>, req: Request, answer: Answer<T>, i: int)
    requires answer.Call?
  {
    && LatestExact(log, answer.kind, req, i) && answer.target == log[i].target && answer.request == req
    && (answer.kind == Callback ==> !HasExact(log, Handler, req))
  }

  /** A dynamic route is called only without an exact one; it is the best of its kind, handlers first. */
  ghost predicate DynamicCall<T>(log: seq<Registration<T>>, req: Request, answer: Answer<T>, i: nat)
    requires answer.Call?
  {
    && !HasExact(log, Handler, req) && !HasExact(log, Callback, req)
    && Best(log, answer.kind, req.verb, req.path, true, i) && answer.target == log[i].target
    && WithCaptures(log[i].path, req, answer.request)
    && (answer.kind == Callback ==> !HasDynamic(log, Handler, req))
  }

  /** What the registrations and the request demand of the answer. */
  ghost predicate Lawful<T>(log: seq<Registration<T>>, req: Request, answer: Answer<T>) {
    match answer
    case NotFound =>
      && !HasExact(log, Handler, req) && !HasExact(log, Callback, req)
      && !HasDynamic(log, Handler, req) && !HasDynamic(log, Callback, req)
    case Call(kind, target, request) =>
      (exists i :: ExactCall(log, req, answer, i)) || (exists i :: DynamicCall(log, req, answer, i))
  }

  lemma {:induction false} ExactTargetIs<T>(log: seq<Registration<T>>, kind: Kind, req: Request) returns (i: int)
    ensures var target := ExactTarget(log, kind, (req.verb, req.path));
      if target.Some? then LatestExact(log, kind, req, i) && target.value == log[i].target
      else !HasExact(log, kind, req)
    decreases |log|
  {
    i := 0;
    if log != [] {
      var n := |log| - 1;
      if ExactFits(log, kind, req, n) {
        i := n;
      } else {
        var before := log[..n];
        i := ExactTargetIs(before, kind, req);
        forall j ensures ExactFits(log, kind, req, j) == ExactFits(before, kind, req, j) {
        }
      }
    }
  }

  lemma {:induction false} OthersUnset(m: Fields, caps: seq<string>, key: string)
    requires !IsParamName(key, |caps|)
    ensures key in WithParams(m, caps) <==> key in m
    ensures ParamOf(WithParams(m, caps), key) == ParamOf(m, key)
    decreases |caps|
  {
    if caps != [] {
      var n := |caps| - 1;
      assert key != "param" + ToDecimal(n + 1);
      OthersUnset(m, caps[..n], key);
    }
  }

  lemma CallMatchedCaptures<T>(r: Registration<T>, req: Request)
    requires Match(Tokens(r.path), req.path).Some?
    ensures WithCaptures(r.path, req, CallMatched(r, req).request)
  {
    var caps := Match(Tokens(r.path), req.path).value;
    var params := WithParams(req.pathParameters, caps);
    forall i | 0 <= i < |caps| ensures CaptureSet(params, i, caps[i]) {
      ParamsHoldCaptures(req.pathParameters, caps, i);
    }
    forall key | !IsParamName(key, |caps|)
      ensures (key in params <==> key in req.pathParameters)
        && ParamOf(params, key) == ParamOf(req.pathParameters, key) {
      OthersUnset(req.pathParameters, caps, key);
    }
  }

  lemma DynamicLawful<T>(log: seq<Registration<T>>, req: Request, kind: Kind)
    requires !HasExact(log, Handler, req) && !HasExact(log, Callback, req)
    requires kind == Callback ==> !HasDynamic(log, Handler, req)
    ensures var i := Scan(log, kind, req.verb, req.path, true);
      if i.Some? then
        Fits(log[i.value], kind, req.verb, req.path, true) && Lawful(log, req, CallMatched(log[i.value], req))
      else !HasDynamic(log, kind, req)
  {
    ScanFindsBest(log, kind, req.verb, req.path, true);
    var i := Scan(log, kind, req.verb, req.path, true);
    if i.Some? {
      CallMatchedCaptures(log[i.value], req);
      assert DynamicCall(log, req, CallMatched(log[i.value], req), i.value);
    }
  }

  /** Routing gives the answer that the registrations and the request demand. */
  lemma RouteLawful<T>(log: seq<Registration<T>>, req: Request)
    ensures Lawful(log, req, NaiveRoute(log, req, true))
  {
    var answer := NaiveRoute(log, req, true);
    var h := ExactTargetIs(log, Handler, req);
    var c := ExactTargetIs(log, Callback, req);
    if HasExact(log, Handler, req) {
      assert ExactCall(log, req, answer, h);
    } else if HasExact(log, Callback, req) {
      assert ExactCall(log, req, answer, c);
    } else {
      DynamicLawful(log, req, Handler);
      if !HasDynamic(log, Handler, req) {
        DynamicLawful(log, req, Callback);
      }
    }
  }

  /** The demand leaves no choice: two lawful answers call the same target. */
  lemma LawfulOnce<T>(log: seq<Registration<T>>, req: Request, a: Answer<T>, b: Answer<T>)
    requires Lawful(log, req, a) && Lawful(log, req, b)
    ensures a.Call? <==> b.Call?
    ensures a.Call? && b.Call? ==> b.kind == a.kind && b.target == a.target
  {
    forall i, j | a.Call? && b.Call? && ExactCall(log, req, a, i) && ExactCall(log, req, b, j)
      ensures b.kind == a.kind && b.target == a.target {
      ExactOnce(log, req, a, b, i, j);
    }
    forall i, j | a.Call? && b.Call? && DynamicCall(log, req, a, i) && DynamicCall(log, req, b, j)
      ensures b.kind == a.kind && b.target == a.target {
      DynamicOnce(log, req, a, b, i, j);
    }
  }

  lemma ExactOnce<T>(log: seq<Registration<T>>, req: Request, a: Answer<T>, b: Answer<T>, i: int, j: int)
    requires a.Call? && b.Call? && ExactCall(log, req, a, i) && ExactCall(log, req, b, j)
    ensures b.kind == a.kind && b.target == a.target
  {
    assert ExactFits(log, a.kind, req, i) && ExactFits(log, b.kind, req, j);
  }

  lemma DynamicOnce<T>(log: seq<Registration<T>>, req: Request, a: Answer<T>, b: Answer<T>, i: nat, j: nat)
    requires a.Call? && b.Call? && DynamicCall(log, req, a, i) && DynamicCall(log, req, b, j)
    ensures b.kind == a.kind && b.target == a.target
  {
    assert Fits(log[i], a.kind, req.verb, req.path, true) && Fits(log[j], b.kind, req.verb, req.path, true);
    BestIsScan(log, a.kind, req.verb, req.path, true, i);
    BestIsScan(log, b.kind, req.verb, req.path, true, j);
  }

  // ---- buckets -------------------------------------------------------------------------------

  datatype RouteObj<T> = RouteObj(verb: Method, tokens: seq<Token>, target: T)

  predicate InBucket<T>(r: Registration<T>, kind: Kind, key: RouteKey) {
    r.dynamic && r.kind == kind && (r.verb, StaticPrefix(r.path)) == key
  }

  /** Where in the log the routes of a bucket were registered, in order. */
  function Indices<T>(log: seq<Registration<T>>, kind: Kind, key: RouteKey): (r: seq<nat>)
    ensures forall k | 0 <= k < |r| :: r[k] < |log| && InBucket(log[r[k]], kind, key)
    ensures forall k, l | 0 <= k < l < |r| :: r[k] < r[l]
    ensures forall i | 0 <= i < |log| && InBucket(log[i], kind, key) :: i in r
    decreases |log|
  {
    if log == [] then []
    else
      var n := |log| - 1;
      var r := Indices(log[..n], kind, key);
      if InBucket(log[n], kind, key) then r + [n] else r
  }

  function RouteOf<T>(r: Registration<T>): RouteObj<T> {
    RouteObj(r.verb, Tokens(r.path), r.target)
  }

  function BucketOf<T>(log: seq<Registration<T>>, kind: Kind, key: RouteKey): seq<RouteObj<T>> {
    var at := Indices(log, kind, key);
    seq(|at|, k requires 0 <= k < |at| => RouteOf(log[at[k]]))
  }

  lemma BucketAppend<T>(log: seq<Registration<T>>, r: Registration<T>, kind: Kind, key: RouteKey)
    ensures BucketOf(log + [r], kind, key)
      == (if InBucket(r, kind, key) then BucketOf(log, kind, key) + [RouteOf(r)] else BucketOf(log, kind, key))
  {
    assert (log + [r])[..|log|] == log;
  }

  lemma ExactAppend<T>(log: seq<Registration<T>>, r: Registration<T>, kind: Kind, key: RouteKey)
    ensures ExactTarget(log + [r], kind, key)
      == (if !r.dynamic && r.kind == kind && (r.verb, r.path) == key then Some(r.target)
          else ExactTarget(log, kind, key))
  {
    assert (log + [r])[..|log|] == log;
  }

  type Exacts<T> = map<RouteKey, T>
  type Buckets<T> = map<RouteKey, seq<RouteObj<T>>>

  ghost predicate ExactsAgree<T>(table: Exacts<T>, log: seq<Registration<T>>, kind: Kind) {
    forall key: RouteKey :: ExactTarget(log, kind, key) == (if key in table then Some(table[key]) else None)
  }

  ghost predicate BucketsAgree<T>(table: Buckets<T>, log: seq<Registration<T>>, kind: Kind) {
    forall key: RouteKey :: BucketOf(log, kind, key) == Bucket(table, key)
  }

  function Bucket<T>(table: Buckets<T>, key: RouteKey): seq<RouteObj<T>> {
    if key in table then table[key] else []
  }

  /** The four tables are what the log says they are. */
  ghost predicate TablesAgree<T>(handlers: Exacts<T>, callbacks: Exacts<T>, regexHandlers: Buckets<T>,
                                 regexCallbacks: Buckets<T>, log: seq<Registration<T>>) {
    && ExactsAgree(handlers, log, Handler) && ExactsAgree(callbacks, log, Callback)
    && BucketsAgree(regexHandlers, log, Handler) && BucketsAgree(regexCallbacks, log, Callback)
  }

  /** The exact table after a registration. */
  function WithExact<T>(table: Exacts<T>, r: Registration<T>, kind: Kind): Exacts<T> {
    if !r.dynamic && r.kind == kind then table[(r.verb, r.path) := r.target] else table
  }

  /** The bucketed table after a registration. */
  function WithRoute<T>(table: Buckets<T>, r: Registration<T>, kind: Kind): Buckets<T> {
    if r.dynamic && r.kind == kind then
      var key := (r.verb, StaticPrefix(r.path));
      table[key := (if key in table then table[key] else []) + [RouteOf(r)]]
    else table
  }

  lemma ExactsAfter<T>(table: Exacts<T>, log: seq<Registration<T>>, kind: Kind, r: Registration<T>)
    requires ExactsAgree(table, log, kind)
    ensures ExactsAgree(WithExact(table, r, kind), log + [r], kind)
  {
    forall key: RouteKey
      ensures ExactTarget(log + [r], kind, key)
        == (if key in WithExact(table, r, kind) then Some(WithExact(table, r, kind)[key]) else None)
    {
      ExactAppend(log, r, kind, key);
    }
  }

  lemma BucketsAfter<T>(table: Buckets<T>, log: seq<Registration<T>>, kind: Kind, r: Registration<T>)
    requires BucketsAgree(table, log, kind)
    ensures BucketsAgree(WithRoute(table, r, kind), log + [r], kind)
  {
    forall key: RouteKey
      ensures BucketOf(log + [r], kind, key)
        == (if key in WithRoute(table, r, kind) then WithRoute(table, r, kind)[key] else [])
    {
      BucketAppend(log, r, kind, key);
    }
  }

  lemma TablesAfter<T>(handlers: Exacts<T>, callbacks: Exacts<T>, regexHandlers: Buckets<T>,
                       regexCallbacks: Buckets<T>, log: seq<Registration<T>>, r: Registration<T>)
    requires TablesAgree(handlers, callbacks, regexHandlers, regexCallbacks, log)
    ensures TablesAgree(WithExact(handlers, r, Handler), WithExact(callbacks, r, Callback),
                        WithRoute(regexHandlers, r, Handler), WithRoute(regexCallbacks, r, Callback), log + [r])
  {
    ExactsAfter(handlers, log, Handler, r);
    ExactsAfter(callbacks, log, Callback, r);
    BucketsAfter(regexHandlers, log, Handler, r);
    BucketsAfter(regexCallbacks, log, Callback, r);
  }

  /** None of the first `n` routes of a bucket matches the path. */
  ghost predicate NoneOf<T>(bucket: seq<RouteObj<T>>, n: nat, path: string) {
    forall k | 0 <= k < n && k < |bucket| :: Match(bucket[k].tokens, path).None?
  }

  ghost predicate NoneMatch<T>(bucket: seq<RouteObj<T>>, path: string) {
    NoneOf(bucket, |bucket|, path)
  }

  /** The buckets of the first `k` lookup keys have no match. */
  ghost predicate Skipped<T>(log: seq<Registration<T>>, kind: Kind, m: Method, path: string, keys: seq<string>,
                             k: nat) {
    forall l | 0 <= l < k && l < |keys| :: NoneMatch(BucketOf(log, kind, (m, keys[l])), path)
  }

  /** The first match in a searched bucket, after buckets without one, is the scan's choice. */
  lemma FirstMatchIsBest<T>(log: seq<Registration<T>>, kind: Kind, m: Method, path: string,
                            keys: seq<string>, k: nat, at: nat)
    requires LookupKeys(path, keys)
    requires k < |keys| && Skipped(log, kind, m, path, keys, k)
    requires var bucket := BucketOf(log, kind, (m, keys[k]));
      at < |bucket| && Match(bucket[at].tokens, path).Some? && NoneOf(bucket, at, path)
    ensures Scan(log, kind, m, path, true) == Some(Indices(log, kind, (m, keys[k]))[at])
  {
    var i := Indices(log, kind, (m, keys[k]))[at];
    IndexedIff(log[i].path, path);
    assert keys[k] in keys;
    forall j | 0 <= j < |log| && Fits(log[j], kind, m, path, true) ensures Beats(log, i, j) {
      FirstMatchBeats(log, kind, m, path, keys, k, at, j);
    }
    BestIsScan(log, kind, m, path, true, i);
  }

  lemma FirstMatchBeats<T>(log: seq<Registration<T>>, kind: Kind, m: Method, path: string,
                           keys: seq<string>, k: nat, at: nat, j: nat)
    requires LookupKeys(path, keys) && k < |keys| && Skipped(log, kind, m, path, keys, k)
    requires at < |BucketOf(log, kind, (m, keys[k]))| && NoneOf(BucketOf(log, kind, (m, keys[k])), at, path)
    requires j < |log| && Fits(log[j], kind, m, path, true)
    ensures Beats(log, Indices(log, kind, (m, keys[k]))[at], j)
  {
    var l, b := KeyOfFitting(log, kind, m, path, keys, j);
    FittingNotSkipped(log, kind, m, path, keys, k, l, b);
    if l == k {
      IndicesInOrder(log, kind, (m, keys[k]), at, b);
    }
    BucketPrefix(log, kind, (m, keys[k]), at);
    assert PrefixSize(log[j]) == |keys[l]|;
  }

  lemma FittingNotSkipped<T>(log: seq<Registration<T>>, kind: Kind, m: Method, path: string,
                             keys: seq<string>, k: nat, l: nat, b: nat)
    requires Skipped(log, kind, m, path, keys, k) && l < |keys|
    requires var bucket := BucketOf(log, kind, (m, keys[l]));
      b < |bucket| && Match(bucket[b].tokens, path).Some?
    ensures l >= k
  {}

  lemma BucketPrefix<T>(log: seq<Registration<T>>, kind: Kind, key: RouteKey, at: nat)
    requires at < |Indices(log, kind, key)|
    ensures PrefixSize(log[Indices(log, kind, key)[at]]) == |key.1|
  {
    assert InBucket(log[Indices(log, kind, key)[at]], kind, key);
  }

  lemma IndicesInOrder<T>(log: seq<Registration<T>>, kind: Kind, key: RouteKey, at: nat, b: nat)
    requires at <= b < |Indices(log, kind, key)|
    ensures Indices(log, kind, key)[at] <= Indices(log, kind, key)[b]
  {}

  /** A fitting route stands in one of the searched buckets. */
  lemma KeyOfFitting<T>(log: seq<Registration<T>>, kind: Kind, m: Method, path: string, keys: seq<string>, j: nat)
      returns (l: nat, b: nat)
    requires LookupKeys(path, keys)
    requires j < |log| && Fits(log[j], kind, m, path, true)
    ensures l < |keys| && keys[l] == StaticPrefix(log[j].path)
    ensures var bucket := BucketOf(log, kind, (m, keys[l]));
      b < |bucket| && Indices(log, kind, (m, keys[l]))[b] == j && Match(bucket[b].tokens, path).Some?
  {
    IndexedIff(log[j].path, path);
    assert StaticPrefix(log[j].path) in keys;
    l :| 0 <= l < |keys| && keys[l] == StaticPrefix(log[j].path);
    assert InBucket(log[j], kind, (m, keys[l]));
    b :| 0 <= b < |Indices(log, kind, (m, keys[l]))| && Indices(log, kind, (m, keys[l]))[b] == j;
  }

  lemma NoMatchIsNone<T>(log: seq<Registration<T>>, kind: Kind, m: Method, path: string, keys: seq<string>)
    requires LookupKeys(path, keys)
    requires Skipped(log, kind, m, path, keys, |keys|)
    ensures IsScanned(log, kind, m, path, None)
  {
    ScanFindsBest(log, kind, m, path, true);
    var r := Scan(log, kind, m, path, true);
    if r.Some? {
      var l, b := KeyOfFitting(log, kind, m, path, keys, r.value);
    }
  }

  /** The target and captures that the scan's choice gives. */
  ghost predicate IsScanned<T>(log: seq<Registration<T>>, kind: Kind, m: Method, path: string,
                               found: Option<(T, seq<string>)>) {
    var i := Scan(log, kind, m, path, true);
    if i.None? then found == None
    else
      var matched := Match(Tokens(log[i.value].path), path);
      matched.Some? && found == Some((log[i.value].target, matched.value))
  }

  /** The bucket of a key; a key without a bucket has no routes. */
  function BucketAt<T>(table: Buckets<T>, key: RouteKey): seq<RouteObj<T>> {
    if key in table then table[key] else []
  }

  /** The buckets of the first `k` lookup keys have no match. */
  ghost predicate SkippedIn<T>(table: Buckets<T>, m: Method, path: string, keys: seq<string>, k: nat) {
    forall l | 0 <= l < k && l < |keys| :: NoneMatch(BucketAt(table, (m, keys[l])), path)
  }

  lemma SkippedInLog<T>(table: Buckets<T>, log: seq<Registration<T>>, kind: Kind, m: Method, path: string,
                        keys: seq<string>, k: nat)
    requires BucketsAgree(table, log, kind) && SkippedIn(table, m, path, keys, k)
    ensures Skipped(log, kind, m, path, keys, k)
  {
    forall l | 0 <= l < k && l < |keys| ensures NoneMatch(BucketOf(log, kind, (m, keys[l])), path) {
      assert NoneMatch(BucketAt(table, (m, keys[l])), path);
    }
  }

  lemma FoundIsScanned<T>(table: Buckets<T>, log: seq<Registration<T>>, kind: Kind, m: Method, path: string,
                          keys: seq<string>, k: nat, at: nat)
    requires BucketsAgree(table, log, kind) && LookupKeys(path, keys)
    requires k < |keys| && SkippedIn(table, m, path, keys, k)
    requires var bucket := BucketAt(table, (m, keys[k]));
      at < |bucket| && Match(bucket[at].tokens, path).Some? && NoneOf(bucket, at, path)
    ensures var bucket := BucketAt(table, (m, keys[k]));
      IsScanned(log, kind, m, path, Some((bucket[at].target, Match(bucket[at].tokens, path).value)))
  {
    SkippedInLog(table, log, kind, m, path, keys, k);
    assert BucketAt(table, (m, keys[k])) == BucketOf(log, kind, (m, keys[k]));
    FirstMatchIsBest(log, kind, m, path, keys, k, at);
  }

  lemma NotFoundIsScanned<T>(table: Buckets<T>, log: seq<Registration<T>>, kind: Kind, m: Method, path: string,
                             keys: seq<string>)
    requires BucketsAgree(table, log, kind) && LookupKeys(path, keys)
    requires SkippedIn(table, m, path, keys, |keys|)
    ensures IsScanned(log, kind, m, path, None)
  {
    SkippedInLog(table, log, kind, m, path, keys, |keys|);
    NoMatchIsNone(log, kind, m, path, keys);
  }

  lemma BucketMethods<T>(table: Buckets<T>, log: seq<Registration<T>>, kind: Kind, key: RouteKey)
    requires BucketsAgree(table, log, kind)
    ensures forall k | 0 <= k < |BucketAt(table, key)| :: BucketAt(table, key)[k].verb == key.0
  {
    assert BucketAt(table, key) == BucketOf(log, kind, key);
  }

  // ---- the router -------------------------------------------------------------------------------

  class Router<T> {
    var handlers: Exacts<T>
    var callbacks: Exacts<T>
    var regexHandlers: Buckets<T>
    var regexCallbacks: Buckets<T>

    /** Everything registered so far, in order. */
    ghost var log: seq<Registration<T>>

    ghost predicate Valid()
      reads this
    {
      TablesAgree(handlers, callbacks, regexHandlers, regexCallbacks, log)
    }

    constructor ()
      ensures Valid() && log == []
    {
      handlers, callbacks, regexHandlers, regexCallbacks := map[], map[], map[], map[];
      log := [];
    }

    method RegisterHandler(verb: Method, path: string, target: T)
      requires Valid()
      modifies this
      ensures Valid() && log == old(log) + [Registration(Handler, false, verb, path, target)]
    {
      handlers := handlers[(verb, path) := target];
      ghost var r := Registration(Handler, false, verb, path, target);
      TablesAfter(old(handlers), old(callbacks), old(regexHandlers), old(regexCallbacks), log, r);
      log := log + [r];
    }

    method RegisterCallback(verb: Method, path: string, target: T)
      requires Valid()
      modifies this
      ensures Valid() && log == old(log) + [Registration(Callback, false, verb, path, target)]
    {
      callbacks := callbacks[(verb, path) := target];
      ghost var r := Registration(Callback, false, verb, path, target);
      TablesAfter(old(handlers), old(callbacks), old(regexHandlers), old(regexCallbacks), log, r);
      log := log + [r];
    }

    method AddRegexHandler(verb: Method, path: string, target: T)
      requires Valid() && Supported(path)
      modifies this
      ensures Valid() && log == old(log) + [Registration(Handler, true, verb, path, target)]
    {
      var key := (verb, StaticPrefix(path));
      var bucket := if key in regexHandlers then regexHandlers[key] else [];
      regexHandlers := regexHandlers[key := bucket + [RouteObj(verb, Tokens(path), target)]];
      ghost var r := Registration(Handler, true, verb, path, target);
      TablesAfter(old(handlers), old(callbacks), old(regexHandlers), old(regexCallbacks), log, r);
      log := log + [r];
    }

    method AddRegexCallback(verb: Method, path: string, target: T)
      requires Valid() && Supported(path)
      modifies this
      ensures Valid() && log == old(log) + [Registration(Callback, true, verb, path, target)]
    {
      var key := (verb, StaticPrefix(path));
      var bucket := if key in regexCallbacks then regexCallbacks[key] else [];
      regexCallbacks := regexCallbacks[key := bucket + [RouteObj(verb, Tokens(path), target)]];
      ghost var r := Registration(Callback, true, verb, path, target);
      TablesAfter(old(handlers), old(callbacks), old(regexHandlers), old(regexCallbacks), log, r);
      log := log + [r];
    }

    /** The loop over one bucket: the first route that matches, or the bucket's size. */
    method SearchBucket(bucket: seq<RouteObj<T>>, verb: Method, path: string) returns (at: nat)
      requires forall k | 0 <= k < |bucket| :: bucket[k].verb == verb
      ensures at <= |bucket| && NoneOf(bucket, at, path)
      ensures at < |bucket| ==> Match(bucket[at].tokens, path).Some?
    {
      at := 0;
      while at < |bucket|
        invariant at <= |bucket| && NoneOf(bucket, at, path)
      {
        var obj := bucket[at];
        if obj.verb == verb && Match(obj.tokens, path).Some? {
          return;
        }
        at := at + 1;
      }
    }

    /** The loop over the lookup keys. */
    method SearchBuckets(table: Buckets<T>, ghost kind: Kind, verb: Method, path: string)
        returns (found: Option<(T, seq<string>)>)
      requires BucketsAgree(table, log, kind)
      ensures IsScanned(log, kind, verb, path, found)
    {
      var keys := PathPrefixesForLookup(path);
      for k := 0 to |keys|
        invariant SkippedIn(table, verb, path, keys, k)
      {
        var key := (verb, keys[k]);
        if key in table {
          var bucket := table[key];
          assert bucket == BucketAt(table, key);
          BucketMethods(table, log, kind, key);
          var at := SearchBucket(bucket, verb, path);
          if at < |bucket| {
            FoundIsScanned(table, log, kind, verb, path, keys, k, at);
            return Some((bucket[at].target, Match(bucket[at].tokens, path).value));
          }
        }
      }
      NotFoundIsScanned(table, log, kind, verb, path, keys);
      found := None;
    }

    /** Calls the same target, with the same path parameters, as the scan over all registrations. */
    method Route(req: Request) returns (answer: Answer<T>)
      requires Valid()
      ensures answer == NaiveRoute(log, req, true) && Lawful(log, req, answer)
    {
      RouteLawful(log, req);
      var key := (req.verb, req.path);
      assert ExactTarget(log, Handler, key) == (if key in handlers then Some(handlers[key]) else None);
      assert ExactTarget(log, Callback, key) == (if key in callbacks then Some(callbacks[key]) else None);
      if key in handlers {
        return Call(Handler, handlers[key], req);
      }
      if key in callbacks {
        return Call(Callback, callbacks[key], req);
      }
      ScanFindsBest(log, Handler, req.verb, req.path, true);
      var found := SearchBuckets(regexHandlers, Handler, req.verb, req.path);
      if found.Some? {
        var newReq := ExtractPathParameters(found.value.1, req);
        return Call(Handler, found.value.0, newReq);
      }
      ScanFindsBest(log, Callback, req.verb, req.path, true);
      found := SearchBuckets(regexCallbacks, Callback, req.verb, req.path);
      if found.Some? {
        var newReq := ExtractPathParameters(found.value.1, req);
        return Call(Callback, found.value.0, newReq);
      }
      return NotFound;
    }
  }
}
