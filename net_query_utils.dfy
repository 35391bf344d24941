/**
 * TypeScript/net-query/utils.ts: the query key built from a request, and
 * the configuration handed to `new QueryClient` (the client itself belongs
 * to `@tanstack/react-query` and is not part of this model).
 */
module NetQueryUtils {
  import opened JsObjects

  /** `makeQueryKey(req)`: `[req?.url, req]`. */
  function MakeQueryKey(req: JsValue): (key: seq<JsValue>)
    ensures |key| == 2 && key[1] == req
    ensures req == Null ==> key == [Undefined, Null]
  {
    [OptionalGet(req, "url"), req]
  }

  /** Equal keys come from equal requests and only from them. */
  lemma MakeQueryKeyInjective(a: JsValue, b: JsValue)
    ensures MakeQueryKey(a) == MakeQueryKey(b) <==> a == b
  {
    if MakeQueryKey(a) == MakeQueryKey(b) {
      assert MakeQueryKey(a)[1] == MakeQueryKey(b)[1];
    }
  }

  /** The key of a request records its `url` first. */
  lemma MakeQueryKeyUrl(url: JsValue, rest: map<string, JsValue>)
    ensures MakeQueryKey(Obj(rest["url" := url])) == [url, Obj(rest["url" := url])]
  {
  }

  /** The default `queries` options. */
  function DefaultQueries(): map<string, JsValue>
  {
    map["refetchOnWindowFocus" := Bool(false), "staleTime" := Num(Int(0)), "gcTime" := Num(Int(300000))]
  }

  /** `defaultOptions` of the configuration: the default `queries`, then `...options`. */
  function DefaultOptions(options: JsValue): (d: map<string, JsValue>)
    ensures d.Keys == {"queries"} + Spread(options).Keys
  {
    map["queries" := Obj(DefaultQueries())] + Spread(options)
  }

  /** `makeQueryClient(options)`: the `QueryClientConfig` passed to the client. */
  function MakeQueryClientConfig(options: JsValue): (config: map<string, JsValue>)
    ensures config.Keys == {"defaultOptions"}
  {
    map["defaultOptions" := Obj(DefaultOptions(options))]
  }

  /** Without options the defaults are used: no refetch on focus, stale at once, kept 5 minutes. */
  lemma MakeQueryClientDefaults()
    ensures MakeQueryClientConfig(Undefined)["defaultOptions"] ==
      Obj(map["queries" := Obj(map["refetchOnWindowFocus" := Bool(false),
                                   "staleTime" := Num(Int(0)),
                                   "gcTime" := Num(Int(300000))])])
  {
    assert DefaultOptions(Undefined) == map["queries" := Obj(DefaultQueries())];
  }

  /** The spread is shallow: a supplied `queries` replaces the default one as a whole. */
  lemma QueriesReplaced(options: JsValue)
    requires "queries" in Spread(options)
    ensures DefaultOptions(options)["queries"] == Spread(options)["queries"]
  {
  }

  /** Every other top-level option is added as it is. */
  lemma OtherOptionsKept(options: JsValue, key: string)
    requires key != "queries"
    ensures key in DefaultOptions(options) <==> key in Spread(options)
    ensures key in Spread(options) ==> DefaultOptions(options)[key] == Spread(options)[key]
  {
  }

  /**
   * `queries: {staleTime: 1000}` leaves no `refetchOnWindowFocus` and no
   * `gcTime` behind.
   */
  lemma QueriesReplacedExample()
    ensures var options := Obj(map["queries" := Obj(map["staleTime" := Num(Int(1000))])]);
      DefaultOptions(options)["queries"] == Obj(map["staleTime" := Num(Int(1000))])
  {
  }
}
