/** `POST /api/track`: derive the client address, user agent and country from request headers,
    take `path` and `ref` from the JSON body, and insert a visit. Any failure is swallowed and
    answered with `{ ok: false }`. */
module Tracking {
  import opened Wrappers
  import opened Json
  import Http
  import opened Visits
  import opened RequestHeaders

  /** A destructuring default on the request body: the body member when present (even when
      it is `null` or `""`), the default only when it is absent. */
  function BodyField(body: Option<Object>, key: string, fallback: string): (v: Value)
    ensures body.Some? && key in body.value ==> v == body.value[key]
    ensures body.None? || key !in body.value ==> v == JStr(fallback)
  {
    Member(body.GetOr(map[]), key).GetOr(JStr(fallback))
  }

  /** How better-sqlite3 binds one JavaScript value to a `?` parameter: `null`, numbers and strings
      bind; a boolean, or an array or object where a single value is expected, makes `run` throw. */
  function Bind(v: Value): (cell: Option<Cell>)
    ensures cell.Some? <==> v.JNull? || v.JNum? || v.JStr?
    ensures v.JStr? ==> cell == Some(Str(v.s))
  {
    match v
    case JNull => Some(Null)
    case JNum(n) => Some(Num(n))
    case JStr(s) => Some(Str(s))
    case _ => None
  }

  /** The elements of an array argument, bound one by one in order; fails when one of them does
      not bind (a nested array included). */
  function BindAll(items: seq<Value>): (cells: Option<seq<Cell>>)
    ensures cells.Some? <==> forall i :: 0 <= i < |items| ==> Bind(items[i]).Some?
    ensures cells.Some? ==>
              && |cells.value| == |items|
              && forall i :: 0 <= i < |items| ==> Bind(items[i]) == Some(cells.value[i])
  {
    if items == [] then Some([])
    else
      var head := Bind(items[0]);
      var tail := BindAll(items[1..]);
      assert forall i :: 1 <= i < |items| ==> items[i] == items[1..][i - 1];
      if head.Some? && tail.Some? then Some([head.value] + tail.value) else None
  }

  /** The positional values one argument of `run` supplies. The driver spreads an array into its
      elements; a plain object binds named parameters only, and the insert has none, so it
      supplies no value; any other value supplies itself. */
  function Spread(v: Value): (vals: Option<seq<Cell>>)
    ensures v.JArr? ==> vals == BindAll(v.items)
    ensures v.JObj? ==> vals == Some([])
    ensures !v.JArr? && !v.JObj? ==> (vals.Some? <==> Bind(v).Some?)
    ensures !v.JArr? && !v.JObj? && vals.Some? ==> vals.value == [Bind(v).value]
  {
    match v
    case JArr(items) => BindAll(items)
    case JObj(_) => Some([])
    case JNull => Some([Null])
    case JNum(n) => Some([Num(n)])
    case JStr(s) => Some([Str(s)])
    case JBool(_) => None
  }

  /** The `path` and `ref` columns as the driver fills them from the last two arguments of the
      insert. The first four `?` parameters take the timestamp, address, user agent and country,
      so the two arguments together must supply exactly two values, which land in `path` and
      `ref` in order; named parameters in two different objects are refused. */
  function BindTail(path: Value, ref: Value): (cells: Option<(Cell, Cell)>)
    ensures cells.Some? ==>
              && !(path.JObj? && ref.JObj?)
              && Spread(path).Some? && Spread(ref).Some?
              && Spread(path).value + Spread(ref).value == [cells.value.0, cells.value.1]
    ensures && !(path.JObj? && ref.JObj?)
            && Spread(path).Some? && Spread(ref).Some?
            && |Spread(path).value| + |Spread(ref).value| == 2
            ==> cells.Some?
  {
    var p := Spread(path);
    var r := Spread(ref);
    if path.JObj? && ref.JObj? then None
    else if p.None? || r.None? then None
    else
      var vals := p.value + r.value;
      if |vals| == 2 then Some((vals[0], vals[1])) else None
  }

  /** For plain values the driver binds `path` and `ref` one to one, failing when either does not
      bind. */
  lemma BindScalars(path: Value, ref: Value)
    requires !path.JArr? && !path.JObj? && !ref.JArr? && !ref.JObj?
    ensures BindTail(path, ref) ==
              if Bind(path).Some? && Bind(ref).Some? then Some((Bind(path).value, Bind(ref).value)) else None
  {
  }

  /** A one-element array `path` is spread into the `path` column: `{"path": ["/x"]}` stores `/x`. */
  lemma BindArrayPath(x: string, r: string)
    ensures BindTail(JArr([JStr(x)]), JStr(r)) == Some((Str(x), Str(r)))
  {
    var items := [JStr(x)];
    assert Bind(items[0]) == Some(Str(x));
    var cells := BindAll(items);
    assert cells.Some? && cells.value[0] == Str(x);
    assert cells.value == [Str(x)];
  }

  /** Two values in a `path` array fill both columns when `ref` is an empty array, and overflow the
      parameters when `ref` is a string. */
  lemma BindArraySpill(a: string, b: string, r: string)
    ensures BindTail(JArr([JStr(a), JStr(b)]), JArr([])) == Some((Str(a), Str(b)))
    ensures BindTail(JArr([JStr(a), JStr(b)]), JStr(r)) == None
  {
    var items := [JStr(a), JStr(b)];
    assert Bind(items[0]) == Some(Str(a)) && Bind(items[1]) == Some(Str(b));
    var cells := BindAll(items);
    assert cells.Some? && cells.value[0] == Str(a) && cells.value[1] == Str(b);
    assert cells.value == [Str(a), Str(b)];
    assert BindAll([]) == Some([]);
  }

  /** An object `path` supplies no positional value, so a plain `ref` leaves a parameter unbound. */
  lemma BindObjectPath(o: Object, r: string)
    ensures BindTail(JObj(o), JStr(r)) == None
  {
  }

  /** The request as the tracking handler sees it. */
  datatype TrackRequest = TrackRequest(headers: Headers, remote: Option<string>, body: Option<Object>)

  /** The row values the handler derives from a request. */
  datatype Derived = Derived(ip: string, ua: string, country: string, path: Value, ref: Value)

  function Derive(req: TrackRequest): (d: Derived)
    ensures d.country != ""
    ensures d.ua == Header(req.headers, "user-agent")
  {
    Derived(
      ClientIp(ForwardedFor(req.headers), req.remote),
      Header(req.headers, "user-agent"),
      DetectCountry(req.headers),
      BodyField(req.body, "path", "/"),
      BodyField(req.body, "ref", ""))
  }

  /** `{ ok }`, sent with status 200. */
  function Ack(ok: bool): Http.Response
  {
    Http.JsonOk(JObj(map["ok" := JBool(ok)]))
  }

  /** The handler at time `now`. `storageUp` is false when SQLite itself fails the insert (I/O
      error, locked database, …). Returns the new table and whether the insert happened; the
      response is `Ack` of the latter. The insert happens exactly when the storage engine is up,
      the body values bind to the two remaining parameters and a rowid is left, and it appends exactly the derived row. */
  function Track(vs: Store, req: TrackRequest, now: int, storageUp: bool): (res: (Store, bool))
    requires Valid(vs)
    ensures Valid(res.0)
    ensures var d := Derive(req);
            res.1 <==> && storageUp
                       && BindTail(d.path, d.ref).Some?
                       && (vs == [] || vs[|vs| - 1].id < MaxRowId)
    ensures !res.1 ==> res.0 == vs
    ensures res.1 ==>
              var d := Derive(req);
              && |res.0| == |vs| + 1
              && res.0 == vs + [Visit(res.0[|vs|].id, now, d.ip, d.ua, d.country,
                                      BindTail(d.path, d.ref).value.0, BindTail(d.path, d.ref).value.1)]
  {
    var d := Derive(req);
    var cells := BindTail(d.path, d.ref);
    if cells.None? || !storageUp then (vs, false)
    else
      match Append(vs, now, d.ip, d.ua, d.country, cells.value.0, cells.value.1)
      case Some(vs') => (vs', true)
      case None => (vs, false)
  }

  /** Posting `{}`, or no body at all, derives `path = "/"` and `ref = ""`; an explicit empty
      path is kept as it is rather than defaulted. */
  lemma TrackDefaults(h: Headers, remote: Option<string>)
    ensures Derive(TrackRequest(h, remote, Some(map[]))).path == JStr("/")
    ensures Derive(TrackRequest(h, remote, Some(map[]))).ref == JStr("")
    ensures Derive(TrackRequest(h, remote, None)).path == JStr("/")
    ensures Derive(TrackRequest(h, remote, None)).ref == JStr("")
    ensures Derive(TrackRequest(h, remote, Some(map["path" := JStr("")]))).path == JStr("")
  {
  }
}
