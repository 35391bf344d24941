/**
 * The glue in TypeScript/net-query/useQuery.ts around `useQuery` of
 * `@tanstack/react-query`: the query key, the options object passed to the
 * library and their precedence, the request function with its failure
 * normalisation, and the projection of the response into the hook's
 * result. `net.fetch` and `dealWithUnknownError` are parameters; what the
 * library does with the options (caching, refetching) is not modelled, and
 * the response and `isFetching` it reports are inputs.
 */
module UseQuery {
  import opened JsObjects
  import opened NetQueryUtils

  /** `req`: a request object (or `null`), or a function producing one. */
  datatype RequestArgument = Request(value: JsValue) | Factory(make: () -> JsValue)

  /** The request `req` stands for: `req(...[])` for a function, else `req` itself. */
  function RequestObject(req: RequestArgument): JsValue
  {
    match req
    case Request(v) => v
    case Factory(make) => make()
  }

  /** `requestQueryKey` */
  function RequestQueryKey(req: RequestArgument): (key: seq<JsValue>)
    ensures key == MakeQueryKey(RequestObject(req))
    ensures |key| == 2 && key[1] == RequestObject(req)
  {
    MakeQueryKey(if req.Factory? then req.make() else req.value)
  }

  /** `!!req`: a function is always truthy. */
  predicate Enabled(req: RequestArgument)
  {
    req.Factory? || Truthy(req.value)
  }

  /** A destructured option of `options ?? {}`, with its default for `undefined`. */
  function OptionField(options: JsValue, name: string, default: JsValue): (v: JsValue)
    ensures Get(options, name) == Undefined ==> v == default
    ensures Get(options, name) != Undefined ==> v == Get(options, name)
  {
    var field := Get(options, name);
    if field == Undefined then default else field
  }

  function NoCacheFlag(options: JsValue): JsValue
  {
    OptionField(options, "noCache", Bool(false))
  }

  function NoExpirationFlag(options: JsValue): JsValue
  {
    OptionField(options, "noExpiration", Bool(false))
  }

  /** `noCacheOptions` */
  function NoCacheOptions(noCache: JsValue): (r: map<string, JsValue>)
    ensures Truthy(noCache) ==> r == map["staleTime" := Num(Int(0)), "gcTime" := Num(Int(0))]
    ensures !Truthy(noCache) ==> r == map[]
  {
    if Truthy(noCache) then map["staleTime" := Num(Int(0)), "gcTime" := Num(Int(0))] else map[]
  }

  /** `noExpirationOptions` */
  function NoExpirationOptions(noExpiration: JsValue): (r: map<string, JsValue>)
    ensures Truthy(noExpiration) ==> r == map["staleTime" := Num(Infinity), "gcTime" := Num(Infinity)]
    ensures !Truthy(noExpiration) ==> r == map[]
  {
    if Truthy(noExpiration) then map["staleTime" := Num(Infinity), "gcTime" := Num(Infinity)] else map[]
  }

  /** The options object given to `useQuery`, in its spread order. */
  function QueryOptions(req: RequestArgument, options: JsValue, queryFn: JsValue): map<string, JsValue>
  {
    var base := map["queryKey" := Arr(RequestQueryKey(req)), "queryFn" := queryFn, "enabled" := Bool(Enabled(req))];
    base + Spread(Get(options, "queryOptions")) + NoCacheOptions(NoCacheFlag(options))
      + NoExpirationOptions(NoExpirationFlag(options))
  }

  /** `noCache` beats a `staleTime` or `gcTime` of the user's query options. */
  lemma NoCacheWins(req: RequestArgument, options: JsValue, queryFn: JsValue)
    requires Truthy(NoCacheFlag(options)) && !Truthy(NoExpirationFlag(options))
    ensures var q := QueryOptions(req, options, queryFn);
      "staleTime" in q && q["staleTime"] == Num(Int(0)) && "gcTime" in q && q["gcTime"] == Num(Int(0))
  {
  }

  /** `noExpiration` beats the user's options and, were both set, `noCache` too. */
  lemma NoExpirationWins(req: RequestArgument, options: JsValue, queryFn: JsValue)
    requires Truthy(NoExpirationFlag(options))
    ensures var q := QueryOptions(req, options, queryFn);
      "staleTime" in q && q["staleTime"] == Num(Infinity) && "gcTime" in q && q["gcTime"] == Num(Infinity)
  {
  }

  /** Without either flag the user's `staleTime` stands, or there is none. */
  lemma NoFlagKeepsUserStaleTime(req: RequestArgument, options: JsValue, queryFn: JsValue)
    requires !Truthy(NoCacheFlag(options)) && !Truthy(NoExpirationFlag(options))
    ensures var q := QueryOptions(req, options, queryFn);
      var user := Spread(Get(options, "queryOptions"));
      ("staleTime" in q <==> "staleTime" in user) && ("staleTime" in user ==> q["staleTime"] == user["staleTime"])
  {
  }

  /** A key the right operand of a map union does not have keeps its value from the left. */
  lemma UnionWithout<K, V>(front: map<K, V>, back: map<K, V>, key: K)
    requires key !in back
    ensures (key in front + back <==> key in front) && (key in front ==> (front + back)[key] == front[key])
  {
  }

  /** A key the flag options do not set has the value of the base and the user's options. */
  lemma BeforeFlags(req: RequestArgument, options: JsValue, queryFn: JsValue, key: string)
    requires key != "staleTime" && key != "gcTime"
    ensures var q := QueryOptions(req, options, queryFn);
      var base := map["queryKey" := Arr(RequestQueryKey(req)), "queryFn" := queryFn, "enabled" := Bool(Enabled(req))];
      var front := base + Spread(Get(options, "queryOptions"));
      (key in q <==> key in front) && (key in q ==> q[key] == front[key])
  {
    var base := map["queryKey" := Arr(RequestQueryKey(req)), "queryFn" := queryFn, "enabled" := Bool(Enabled(req))];
    var front := base + Spread(Get(options, "queryOptions"));
    var noCache := NoCacheOptions(NoCacheFlag(options));
    var noExpiration := NoExpirationOptions(NoExpirationFlag(options));
    UnionWithout(front, noCache, key);
    UnionWithout(front + noCache, noExpiration, key);
  }

  /** The user's `enabled` beats `!!req`. */
  lemma EnabledPrecedence(req: RequestArgument, options: JsValue, queryFn: JsValue)
    ensures var q := QueryOptions(req, options, queryFn);
      var user := Spread(Get(options, "queryOptions"));
      "enabled" in q &&
      q["enabled"] == (if "enabled" in user then user["enabled"] else Bool(Enabled(req)))
  {
    BeforeFlags(req, options, queryFn, "enabled");
  }

  /** Query options without `queryKey` and `queryFn`, as their type demands, keep both. */
  lemma KeyAndFunctionKept(req: RequestArgument, options: JsValue, queryFn: JsValue)
    requires "queryKey" !in Spread(Get(options, "queryOptions"))
    requires "queryFn" !in Spread(Get(options, "queryOptions"))
    ensures var q := QueryOptions(req, options, queryFn);
      "queryKey" in q && q["queryKey"] == Arr(RequestQueryKey(req)) && "queryFn" in q && q["queryFn"] == queryFn
  {
    BeforeFlags(req, options, queryFn, "queryKey");
    BeforeFlags(req, options, queryFn, "queryFn");
  }

  /** What a call of `net.fetch` comes to: a response, or a rejection with an error. */
  datatype FetchOutcome = Resolved(response: JsValue) | Rejected(error: JsValue)

  type Fetch = (JsValue, JsValue) -> FetchOutcome

  /** `commonFailureResWithoutMsg` */
  function CommonFailure(): JsValue
  {
    Obj(map["data" := Undefined, "success" := Bool(false)])
  }

  /** `fetchData`: no request gives the common failure; a rejection becomes one with a message. */
  function FetchData(request: JsValue, fetchOptions: JsValue, fetch: Fetch, describe: JsValue -> string): (res: JsValue)
    ensures !Truthy(request) ==> res == CommonFailure()
    ensures Truthy(request) && fetch(request, fetchOptions).Resolved? ==> res == fetch(request, fetchOptions).response
    ensures Truthy(request) && fetch(request, fetchOptions).Rejected? ==>
      Get(res, "success") == Bool(false) && Get(res, "data") == Undefined &&
      Get(res, "msg") == Str(describe(fetch(request, fetchOptions).error))
  {
    if !Truthy(request) then CommonFailure()
    else
      match fetch(request, fetchOptions)
      case Resolved(response) => response
      case Rejected(err) => Obj(Spread(CommonFailure())["msg" := Str(describe(err))])
  }

  /** Without a request the result does not depend on `net.fetch`: it is not called. */
  lemma NoRequestNoFetch(request: JsValue, fetchOptions: JsValue, fetch1: Fetch, fetch2: Fetch, describe: JsValue -> string)
    requires !Truthy(request)
    ensures FetchData(request, fetchOptions, fetch1, describe) == FetchData(request, fetchOptions, fetch2, describe)
  {
  }

  /** `queryFn`: fetch element 1 of the query key. */
  function QueryFn(queryKey: seq<JsValue>, fetchOptions: JsValue, fetch: Fetch, describe: JsValue -> string): JsValue
  {
    FetchData(At(queryKey, 1), fetchOptions, fetch, describe)
  }

  /** The request fetched through the key is the one the key was made from. */
  lemma QueryFnFetchesRequest(req: RequestArgument, fetchOptions: JsValue, fetch: Fetch, describe: JsValue -> string)
    ensures QueryFn(RequestQueryKey(req), fetchOptions, fetch, describe) ==
      FetchData(RequestObject(req), fetchOptions, fetch, describe)
  {
  }

  /** `UseQueryDataType` */
  datatype QueryData = QueryData(data: JsValue, success: JsValue, errorMsg: JsValue, errorCode: JsValue)

  /** `UseQueryReturnType`, without `reloadData`. */
  datatype QueryResult = QueryResult(result: QueryData, isLoading: bool, queryKey: seq<JsValue>)

  /** The value the hook returns, from the response and the `isFetching` the library reports. */
  function UseQueryResult(req: RequestArgument, ytResponse: JsValue, isFetching: bool): (r: QueryResult)
    ensures r.isLoading == isFetching && r.queryKey == RequestQueryKey(req)
    ensures Truthy(r.result.success) <==> Truthy(OptionalGet(ytResponse, "success"))
    ensures !Truthy(OptionalGet(ytResponse, "success")) ==> r.result.success == Bool(false)
    ensures r.result.data == OptionalGet(ytResponse, "data") && r.result.errorMsg == OptionalGet(ytResponse, "msg")
    ensures r.result.errorCode == OptionalGet(ytResponse, "errorCode")
  {
    QueryResult(
      QueryData(
        OptionalGet(ytResponse, "data"),
        Or(OptionalGet(ytResponse, "success"), Bool(false)),
        OptionalGet(ytResponse, "msg"),
        OptionalGet(ytResponse, "errorCode")),
      isFetching,
      RequestQueryKey(req))
  }

  /** `reloadData`: the projection of the `data` the refetch resolves with. */
  function ReloadData(data: JsValue): QueryData
  {
    QueryData(OptionalGet(data, "data"), Or(OptionalGet(data, "success"), Bool(false)), OptionalGet(data, "msg"),
      OptionalGet(data, "errorCode"))
  }

  /** `reloadData` projects a response as the hook's result does. */
  lemma ReloadDataAgrees(req: RequestArgument, response: JsValue, isFetching: bool)
    ensures ReloadData(response) == UseQueryResult(req, response, isFetching).result
  {
  }

  /** Before there is any response: no data, not successful, no message or code. */
  lemma NoResponseProjection(req: RequestArgument, isFetching: bool)
    ensures UseQueryResult(req, Undefined, isFetching).result == QueryData(Undefined, Bool(false), Undefined, Undefined)
  {
  }

  /** A failed fetch ends as an unsuccessful result carrying the message. */
  lemma RejectedFetchResult(req: RequestArgument, fetchOptions: JsValue, fetch: Fetch, describe: JsValue -> string, isFetching: bool)
    requires Truthy(RequestObject(req)) && fetch(RequestObject(req), fetchOptions).Rejected?
    ensures var response := QueryFn(RequestQueryKey(req), fetchOptions, fetch, describe);
      var r := UseQueryResult(req, response, isFetching).result;
      r.success == Bool(false) && r.data == Undefined &&
      r.errorMsg == Str(describe(fetch(RequestObject(req), fetchOptions).error))
  {
    QueryFnFetchesRequest(req, fetchOptions, fetch, describe);
  }
}
