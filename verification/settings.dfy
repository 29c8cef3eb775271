/** The settings store: one JSON document per key in a key/value table, of which the server uses
    only `links`, and the normaliser that turns an admin's payload into the stored document. */
module Settings {
  import opened Wrappers
  import opened Json

  /** What `defaultLinks` is made of: the default `fortune` and `job`, the button names, and the
      URL every default button points at. The normaliser is stated for any such value and used
      with `Std`, the server's own. */
  datatype Defaults = Defaults(fortune: string, job: string, buttonKeys: seq<string>, buttonUrl: string)

  /** The server's defaults. */
  const Std: Defaults := Defaults(
    "fortune.html",
    "#",
    ["operator", "chats", "reviews", "bot", "channel", "exchanger", "jobs", "support"],
    "https://t.me/")

  /** `defaultLinks.buttons`: every named button points at the default URL. */
  function Buttons(d: Defaults): Object
  {
    map k | k in d.buttonKeys :: JStr(d.buttonUrl)
  }

  /** `defaultLinks`. */
  function Links(d: Defaults): Object
  {
    map["fortune" := JStr(d.fortune), "job" := JStr(d.job), "buttons" := JObj(Buttons(d))]
  }

  const DefaultButtons: Object := Buttons(Std)
  const DefaultLinks: Object := Links(Std)

  /** Payloads the model covers: a truthy `buttons` member must be a JSON object. (A truthy string,
      number or array there is a JavaScript primitive-mutation corner case left out.) */
  predicate Admissible(payload: Object)
  {
    TruthyMember(payload, "buttons") ==> payload["buttons"].JObj?
  }

  /** `o[key]` when it is a string, otherwise the string `fallback`. */
  function StringOr(o: Object, key: string, fallback: string): Value
  {
    if key in o && o[key].JStr? then o[key] else JStr(fallback)
  }

  /** The button fill-in loop: each listed key whose value is
      not a string gets the URL `url`; every other member stays as it was. */
  function FillButtons(buttons: Object, keys: seq<string>, url: string): (r: Object)
    ensures r.Keys == buttons.Keys + (set k | k in keys)
    ensures forall k :: k in keys ==> r[k] == StringOr(buttons, k, url)
    ensures forall k :: k in buttons && k !in keys ==> r[k] == buttons[k]
    ensures (forall k :: k in keys ==> k in buttons && buttons[k].JStr?) ==> r == buttons
    decreases |keys|, 1
  {
    if keys == [] then buttons
    else
      FillFirstKeys(buttons, keys, url);
      FillFirstValues(buttons, keys, url);
      FillButtons(FillOne(buttons, keys[0], url), keys[1..], url)
  }

  /** One step of the loop: the member `k` filled with `url` unless it is a string. */
  function FillOne(buttons: Object, k: string, url: string): Object
  {
    if k in buttons && buttons[k].JStr? then buttons else buttons[k := JStr(url)]
  }

  /** The members that filling the first key and then the rest adds, and those it leaves alone. */
  lemma FillFirstKeys(buttons: Object, keys: seq<string>, url: string)
    requires keys != []
    decreases |keys|, 0
    ensures var r := FillButtons(FillOne(buttons, keys[0], url), keys[1..], url);
      && r.Keys == buttons.Keys + (set k | k in keys)
      && (forall k :: k in buttons && k !in keys ==> r[k] == buttons[k])
  {
    var filled := FillOne(buttons, keys[0], url);
    assert filled.Keys == buttons.Keys + {keys[0]};
    assert (set k | k in keys) == {keys[0]} + (set k | k in keys[1..]) by {
      assert forall k :: k in keys <==> k == keys[0] || k in keys[1..];
    }
  }

  /** The values filling the first key and then the rest gives the listed members. */
  lemma FillFirstValues(buttons: Object, keys: seq<string>, url: string)
    requires keys != []
    decreases |keys|, 0
    ensures var r := FillButtons(FillOne(buttons, keys[0], url), keys[1..], url);
      && (forall k :: k in keys ==> r[k] == StringOr(buttons, k, url))
      && ((forall k :: k in keys ==> k in buttons && buttons[k].JStr?) ==> r == buttons)
  {
    var k0, rest := keys[0], keys[1..];
    var filled := FillOne(buttons, k0, url);
    var r := FillButtons(filled, rest, url);
    forall k | k in keys
      ensures r[k] == StringOr(buttons, k, url)
    {
      assert k == k0 || k in rest;
      if k !in rest {
        assert filled[k] == StringOr(buttons, k, url);
      }
    }
    if forall k :: k in keys ==> k in buttons && buttons[k].JStr? {
      assert keys[0] in keys;
      assert filled == buttons;
    }
  }

  /** The buttons of the normalised document, given `next.buttons`: the default buttons when it is
      falsy, otherwise the given object with every default button that is not a string filled in.
      (The source also runs the filling loop over the default buttons, which changes nothing.) */
  function MergeButtons(d: Defaults, given: Value): (buttons: Object)
    requires Truthy(given) ==> given.JObj?
    ensures forall k :: k in d.buttonKeys ==> k in buttons && buttons[k].JStr?
  {
    if Truthy(given) then FillButtons(given.fields, d.buttonKeys, d.buttonUrl) else Buttons(d)
  }

  /** The `POST /api/admin/links` normaliser for defaults `d`: the defaults overlaid with the payload's members, then
      `fortune` and `job` reset to their defaults unless they are strings, a falsy `buttons`
      replaced by the default buttons, and every default button that is not a string filled in. */
  function NormalizeWith(d: Defaults, payload: Object): (doc: Object)
    requires Admissible(payload)
    ensures doc.Keys == payload.Keys + {"fortune", "job", "buttons"}
    ensures doc["fortune"] == StringOr(payload, "fortune", d.fortune)
    ensures doc["job"] == StringOr(payload, "job", d.job)
    ensures forall k :: k in payload && k !in {"fortune", "job", "buttons"} ==> doc[k] == payload[k]
  {
    var next := Links(d) + payload;
    var fortune := if next["fortune"].JStr? then next["fortune"] else JStr(d.fortune);
    var job := if next["job"].JStr? then next["job"] else JStr(d.job);
    next["fortune" := fortune]["job" := job]["buttons" := JObj(MergeButtons(d, next["buttons"]))]
  }

  /** The normaliser the server runs, with its own defaults. */
  function Normalize(payload: Object): (doc: Object)
    requires Admissible(payload)
  {
    NormalizeWith(Std, payload)
  }

  /** The shape every document the normaliser produces has: string `fortune` and `job`, and a
      `buttons` object in which every default button is a string. */
  predicate NormalizedFor(d: Defaults, doc: Object)
  {
    && "fortune" in doc && doc["fortune"].JStr?
    && "job" in doc && doc["job"].JStr?
    && "buttons" in doc && doc["buttons"].JObj?
    && forall k :: k in d.buttonKeys ==> k in doc["buttons"].fields && doc["buttons"].fields[k].JStr?
  }

  /** The `buttons` member of a normalised document. */
  function ButtonsOfDoc(d: Defaults, payload: Object): Value
    requires Admissible(payload)
  {
    NormalizeWith(d, payload)["buttons"]
  }

  /** Every normalised payload has the stored shape. */
  lemma NormalizeShape(d: Defaults, payload: Object)
    requires Admissible(payload)
    ensures NormalizedFor(d, NormalizeWith(d, payload))
  {
  }

  /** A falsy or missing `buttons` yields exactly the default buttons. */
  lemma NormalizeDefaultButtons(d: Defaults, payload: Object)
    requires Admissible(payload)
    requires !TruthyMember(payload, "buttons")
    ensures ButtonsOfDoc(d, payload) == JObj(Buttons(d))
  {
    if "buttons" !in payload {
      assert FillButtons(Buttons(d), d.buttonKeys, d.buttonUrl) == Buttons(d);
    }
  }

  /** With a `buttons` object given, each default button is the payload's if it is a string and the
      default URL otherwise, and every other button is carried through unchanged. */
  lemma NormalizeGivenButtons(d: Defaults, payload: Object)
    requires Admissible(payload)
    requires TruthyMember(payload, "buttons")
    ensures var given := payload["buttons"].fields;
            var buttons := ButtonsOfDoc(d, payload).fields;
            && buttons.Keys == given.Keys + (set k | k in d.buttonKeys)
            && (forall k :: k in d.buttonKeys ==> buttons[k] == StringOr(given, k, d.buttonUrl))
            && (forall k :: k in given && k !in d.buttonKeys ==> buttons[k] == given[k])
  {
    var given := payload["buttons"].fields;
    assert ButtonsOfDoc(d, payload).fields == FillButtons(given, d.buttonKeys, d.buttonUrl);
  }

  /** A document already in the stored shape is a fixed point of the normaliser. */
  lemma NormalizeFixesNormalized(d: Defaults, doc: Object)
    requires NormalizedFor(d, doc)
    ensures Admissible(doc) && NormalizeWith(d, doc) == doc
  {
    var r := NormalizeWith(d, doc);
    var given := doc["buttons"].fields;
    assert FillButtons(given, d.buttonKeys, d.buttonUrl) == given;
    assert r["buttons"] == doc["buttons"];
    assert forall k :: k in r ==> r[k] == doc[k];
  }

  /** Normalising twice is normalising once. */
  lemma NormalizeIdempotent(d: Defaults, payload: Object)
    requires Admissible(payload)
    ensures var once := NormalizeWith(d, payload);
            Admissible(once) && NormalizeWith(d, once) == once
  {
    NormalizeShape(d, payload);
    NormalizeFixesNormalized(d, NormalizeWith(d, payload));
  }

  /** The empty payload normalises to exactly the default document. */
  lemma NormalizeEmpty(d: Defaults)
    ensures NormalizeWith(d, map[]) == Links(d)
  {
    NormalizeDefaultButtons(d, map[]);
    var r := NormalizeWith(d, map[]);
    assert forall k :: k in r ==> r[k] == Links(d)[k];
  }

  /** With the server's defaults: posting `{}` stores exactly `defaultLinks`, and posting any
      payload stores `"fortune.html"`, `"#"` and `"https://t.me/"` where its values are missing or
      not strings. */
  lemma StdNormalize(payload: Object)
    requires Admissible(payload)
    ensures Normalize(map[]) == DefaultLinks
    ensures Normalize(payload)["fortune"] == StringOr(payload, "fortune", "fortune.html")
    ensures Normalize(payload)["job"] == StringOr(payload, "job", "#")
    ensures !TruthyMember(payload, "buttons") ==> Normalize(payload)["buttons"] == JObj(DefaultButtons)
    ensures TruthyMember(payload, "buttons") ==>
              forall k :: k in Std.buttonKeys ==>
                Normalize(payload)["buttons"].fields[k] == StringOr(payload["buttons"].fields, k, "https://t.me/")
  {
    NormalizeEmpty(Std);
    if TruthyMember(payload, "buttons") {
      NormalizeGivenButtons(Std, payload);
    } else {
      NormalizeDefaultButtons(Std, payload);
    }
  }

  /** A row of the `settings` table. */
  datatype Row = Row(value: Value, updatedAt: int)

  /** The `settings` table, keyed by `key`. */
  type Table = map<string, Row>

  const LinksKey := "links"

  /** `INSERT … ON CONFLICT(key) DO UPDATE`: the row under `key` becomes `(value, at)`, whatever
      was there before; no other row changes. */
  function Upsert(t: Table, key: string, value: Value, at: int): (r: Table)
    ensures r.Keys == t.Keys + {key}
    ensures r[key] == Row(value, at)
    ensures forall k :: k in t && k != key ==> r[k] == t[k]
  {
    t[key := Row(value, at)]
  }

  /** Start-up seeding: store the default document under `links` unless a row is already there. */
  function Seed(t: Table, now: int): (r: Table)
    ensures LinksKey in r
    ensures LinksKey in t ==> r == t
    ensures LinksKey !in t ==> r == t[LinksKey := Row(JObj(DefaultLinks), now)]
  {
    if LinksKey in t then t else Upsert(t, LinksKey, JObj(DefaultLinks), now)
  }

  /** `GET /api/admin/links`: the stored document, or the defaults when there is none. */
  function ReadLinks(t: Table): (doc: Value)
    ensures LinksKey !in t ==> doc == JObj(DefaultLinks)
    ensures LinksKey in t ==> doc == t[LinksKey].value
  {
    if LinksKey in t then t[LinksKey].value else JObj(DefaultLinks)
  }

  /** The payload of a settings write: an absent body reads as the empty object. */
  function PayloadOf(body: Option<Object>): Object
  {
    body.GetOr(map[])
  }

  /** `POST /api/admin/links`: normalise the payload and upsert it under `links` at time `now`. */
  function WriteLinks(t: Table, body: Option<Object>, now: int): (r: Table)
    requires Admissible(PayloadOf(body))
    ensures ReadLinks(r) == JObj(Normalize(PayloadOf(body)))
    ensures LinksKey in r && r[LinksKey].updatedAt == now
    ensures forall k :: k in t && k != LinksKey ==> k in r && r[k] == t[k]
    ensures r.Keys == t.Keys + {LinksKey}
  {
    Upsert(t, LinksKey, JObj(Normalize(PayloadOf(body))), now)
  }

  /** Writes are last-writer-wins: a second write hides the first entirely. */
  lemma LastWriterWins(t: Table, first: Option<Object>, t1: int, second: Option<Object>, t2: int)
    requires Admissible(PayloadOf(first)) && Admissible(PayloadOf(second))
    ensures WriteLinks(WriteLinks(t, first, t1), second, t2) == WriteLinks(t, second, t2)
  {
    var a := Row(JObj(Normalize(PayloadOf(first))), t1);
    var b := Row(JObj(Normalize(PayloadOf(second))), t2);
    assert t[LinksKey := a][LinksKey := b] == t[LinksKey := b];
  }

  /** Before any write, a freshly seeded table reads back exactly the default document, and so
      does a table never seeded at all. */
  lemma FreshReadIsDefault(now: int)
    ensures ReadLinks(Seed(map[], now)) == JObj(DefaultLinks)
    ensures ReadLinks(map[]) == JObj(DefaultLinks)
  {
  }

  /** Every document the server stores under `links` is normalised. */
  lemma StoredLinksNormalized(t: Table, body: Option<Object>, now: int)
    requires Admissible(PayloadOf(body))
    ensures ReadLinks(WriteLinks(t, body, now)).JObj?
    ensures NormalizedFor(Std, ReadLinks(WriteLinks(t, body, now)).fields)
  {
    NormalizeShape(Std, PayloadOf(body));
  }
}
