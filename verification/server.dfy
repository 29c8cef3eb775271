/** The HTTP surface of the backend: start-up seeding, the public tracking endpoint, and the four
    admin endpoints behind the Basic-auth gate, over a state made of the two tables. */
module Server {
  import opened Wrappers
  import opened Json
  import opened Http
  import Auth
  import Settings
  import opened Visits
  import Countries
  import Stats
  import Tracking
  import Text

  datatype State = State(visits: Store, settings: Settings.Table)

  predicate Valid(st: State)
  {
    Visits.Valid(st.visits)
  }

  /** Process start-up at time `now`: the `links` row is seeded with the default document when it
      is missing. Seeding never changes what `GET /api/admin/links` answers. */
  function Startup(st: State, now: int): (st': State)
    ensures st'.visits == st.visits
    ensures Settings.LinksKey in st'.settings
    ensures Settings.ReadLinks(st'.settings) == Settings.ReadLinks(st.settings)
  {
    st.(settings := Settings.Seed(st.settings, now))
  }

  datatype Request =
    | Track(track: Tracking.TrackRequest)
    | GetStats(cred: Option<Auth.Credentials>)
    | GetVisits(cred: Option<Auth.Credentials>, limit: Option<string>)
    | GetLinks(cred: Option<Auth.Credentials>)
    | SetLinks(cred: Option<Auth.Credentials>, body: Option<Object>)

  /** What a request is handled with besides the state: the clock (`Date.now()`), local midnight of
      it (`startOfDay`), and whether the storage engine accepts the tracking insert. */
  datatype Env = Env(now: int, dayStart: int, storageUp: bool)

  predicate IsAdmin(req: Request)
  {
    !req.Track?
  }

  /** Admin requests whose handling the model covers: a settings payload whose truthy `buttons` is
      an object, and a `limit` parameter that parses to a number SQLite accepts as a LIMIT. */
  predicate Modelled(req: Request)
  {
    match req
    case SetLinks(_, body) => Settings.Admissible(Settings.PayloadOf(body))
    case GetVisits(_, limit) => LimitFromQuery(limit).Some? && LimitFromQuery(limit).value >= MinLimit
    case _ => true
  }

  function CellJson(c: Cell): Value
  {
    match c
    case Null => JNull
    case Str(s) => JStr(s)
    case Num(n) => JNum(n)
  }

  /** One element of the `/api/admin/visits` answer. */
  function ViewJson(v: VisitView): Value
  {
    JObj(map["ts" := JNum(v.ts as real), "ip" := JStr(v.ip), "country" := JStr(v.country),
             "path" := CellJson(v.path), "ref" := CellJson(v.ref)])
  }

  function CountryJson(r: Countries.CountryCount): Value
  {
    JObj(map["country" := JStr(r.country), "c" := JNum(r.c as real)])
  }

  function WindowJson(s: Stats.WindowStats): Value
  {
    JObj(map["visits" := JNum(s.visits as real),
             "countries" := JArr(seq(|s.countries|, i requires 0 <= i < |s.countries| => CountryJson(s.countries[i])))])
  }

  /** The `/api/admin/stats` answer: `{ day, week, month, all }`. */
  function ReportJson(r: Stats.Report): Value
  {
    JObj(map["day" := WindowJson(r.day), "week" := WindowJson(r.week),
             "month" := WindowJson(r.month), "all" := WindowJson(r.all)])
  }

  /** The `/api/admin/stats` answer for the clock in `env`. */
  function StatsJson(vs: Store, env: Env): Value
    requires env.dayStart <= env.now
  {
    ReportJson(Stats.StatsReport(vs, env.now, env.dayStart))
  }

  /** The `/api/admin/visits` answer for a parsed limit. */
  function VisitsJson(vs: Store, limit: int): Value
    requires Visits.Valid(vs)
  {
    var views := RecentVisits(vs, limit);
    JArr(seq(|views|, i requires 0 <= i < |views| => ViewJson(views[i])))
  }

  /** The admin handlers, once the gate has let a request through. */
  function Admin(st: State, env: Env, req: Request): (res: (State, Response))
    requires Valid(st) && env.dayStart <= env.now
    requires IsAdmin(req) && Modelled(req)
    ensures res.0.visits == st.visits
    ensures !req.SetLinks? ==> res.0 == st
    ensures res.1.status == 200
  {
    match req
    case GetStats(_) =>
      (st, JsonOk(StatsJson(st.visits, env)))
    case GetVisits(_, limit) =>
      (st, JsonOk(VisitsJson(st.visits, LimitFromQuery(limit).value)))
    case GetLinks(_) =>
      (st, JsonOk(Settings.ReadLinks(st.settings)))
    case SetLinks(_, body) =>
      (st.(settings := Settings.WriteLinks(st.settings, body, env.now)), JsonOk(JObj(map["ok" := JBool(true)])))
  }

  /** Handles one request. Admin requests the gate turns away get the 401 challenge and change
      nothing; only a tracking request can add a visit and only a settings write can change the
      settings; tracking, once its body has parsed, always answers 200 with `{ ok }`, `ok` being
      true exactly when a visit was added; the visits table stays valid. */
  function Handle(st: State, secrets: Auth.Secrets, env: Env, req: Request): (res: (State, Response))
    requires Valid(st) && env.dayStart <= env.now
    requires IsAdmin(req) && Auth.Gate(req.cred, secrets).None? ==> Modelled(req)
    ensures Valid(res.0)
    ensures IsAdmin(req) && req.cred != Some(Auth.Credentials(secrets.user, secrets.pass)) ==>
              res == (st, Auth.Challenge)
    ensures !req.Track? ==> res.0.visits == st.visits
    ensures !req.SetLinks? ==> res.0.settings == st.settings
    ensures req.Track? ==> res.1 == Tracking.Ack(|res.0.visits| == |st.visits| + 1)
  {
    match req
    case Track(t) =>
      var (vs, ok) := Tracking.Track(st.visits, t, env.now, env.storageUp);
      (st.(visits := vs), Tracking.Ack(ok))
    case _ =>
      match Auth.Gate(req.cred, secrets)
      case Some(denial) => (st, denial)
      case None => Admin(st, env, req)
  }

  /** A negative `limit` below `MinLimit`, -2^63 among them, is outside what the model covers:
      SQLite refuses it. */
  lemma LowLimitNotModelled(cred: Option<Auth.Credentials>, n: nat)
    requires -(n as int) < MinLimit
    ensures !Modelled(GetVisits(cred, Some("-" + Text.ShowNat(n))))
  {
    Visits.LimitOfNegative(n);
  }

  /** A `limit` of -1 is within it, and lists every visit. */
  lemma MinusOneListsAll(vs: Store, cred: Option<Auth.Credentials>)
    requires Visits.Valid(vs)
    ensures Modelled(GetVisits(cred, Some("-1")))
    ensures |RecentVisits(vs, LimitFromQuery(Some("-1")).value)| == |vs|
  {
    Text.ParseMinusOne();
    assert LimitFromQuery(Some("-1")) == Some(-1);
  }

  /** Any admin request without credentials is refused with the challenge, whatever the
      configured secrets. */
  lemma NoCredentialsNoData(st: State, secrets: Auth.Secrets, env: Env, req: Request)
    requires Valid(st) && env.dayStart <= env.now
    requires IsAdmin(req) && req.cred.None?
    ensures Handle(st, secrets, env, req) == (st, Auth.Challenge)
    ensures Handle(st, secrets, env, req).1.status == 401
  {
  }

  /** On a fresh database, reading the links with the right credentials answers exactly the
      default document. */
  lemma FreshLinksAreDefault(secrets: Auth.Secrets, env: Env, now: int)
    requires env.dayStart <= env.now
    ensures var st := Startup(State([], map[]), now);
            var cred := Some(Auth.Credentials(secrets.user, secrets.pass));
            Handle(st, secrets, env, GetLinks(cred)).1 == JsonOk(JObj(Settings.DefaultLinks))
  {
  }

  /** An accepted settings write is what the next read returns, normalised. */
  lemma WriteThenRead(st: State, secrets: Auth.Secrets, env: Env, body: Option<Object>)
    requires Valid(st) && env.dayStart <= env.now
    requires Settings.Admissible(Settings.PayloadOf(body))
    ensures var cred := Some(Auth.Credentials(secrets.user, secrets.pass));
            var st' := Handle(st, secrets, env, SetLinks(cred, body)).0;
            Handle(st', secrets, env, GetLinks(cred)).1
              == JsonOk(JObj(Settings.Normalize(Settings.PayloadOf(body))))
  {
    var cred := Some(Auth.Credentials(secrets.user, secrets.pass));
    var written := st.(settings := Settings.WriteLinks(st.settings, body, env.now));
    assert Auth.Gate(cred, secrets).None?;
    assert Handle(st, secrets, env, SetLinks(cred, body)) == Admin(st, env, SetLinks(cred, body));
    assert Handle(written, secrets, env, GetLinks(cred)) == Admin(written, env, GetLinks(cred));
  }

  /** With the secrets the server configures from its environment, credentials with an empty
      password never pass the gate: the admin request is refused and changes nothing. */
  lemma EmptyPasswordRefused(st: State, envUser: Option<string>, envPass: Option<string>, env: Env, req: Request)
    requires Valid(st) && env.dayStart <= env.now
    requires IsAdmin(req) && req.cred.Some? && req.cred.value.pass == ""
    ensures Handle(st, Auth.Configured(envUser, envPass), env, req) == (st, Auth.Challenge)
  {
    var secrets := Auth.Configured(envUser, envPass);
    assert req.cred != Some(Auth.Credentials(secrets.user, secrets.pass));
  }
}
