/** The browser objects the player controllers see, reduced to what their
    decisions depend on: element identities, parsed JSON and messages. */
module Browser {
  import opened Options

  /** Identity of an `<iframe>` element the script created. */
  type IframeId = nat

  /** Identity of a `.video-wrapper` element. */
  type WrapperId = nat

  /** A value `JSON.parse` can produce. An object lists its members in text
      order; when a key repeats, the last one counts. */
  datatype Json =
    | JNull
    | JBool(b: bool)
    | JNumber(n: real)
    | JString(s: string)
    | JArray(elements: seq<Json>)
    | JObject(members: seq<Member>)

  datatype Member = Member(key: string, value: Json)

  function MemberValue(members: seq<Member>, key: string): Option<Json>
    decreases |members|
  {
    if |members| == 0 then None
    else if members[|members| - 1].key == key then Some(members[|members| - 1].value)
    else MemberValue(members[..|members| - 1], key)
  }

  /** `v.key`: `None` stands for `undefined`, which is what any property of
      a non-object reads as here. */
  function Field(v: Json, key: string): Option<Json> {
    if v.JObject? then MemberValue(v.members, key) else None
  }

  /** JavaScript truthiness of a property value. */
  predicate Truthy(v: Option<Json>) {
    match v
    case None => false
    case Some(JNull) => false
    case Some(JBool(b)) => b
    case Some(JNumber(n)) => n != 0.0
    case Some(JString(s)) => s != ""
    case Some(JArray(_)) => true
    case Some(JObject(_)) => true
  }

  /** `event.data` of a `message` event: a string together with what
      `JSON.parse` makes of it (`None` when it throws), or anything else. */
  datatype MessageData = NotString | Text(raw: string, parsed: Option<Json>)

  /** A `message` event; `source` names the iframe whose window posted it,
      `None` for any other window. */
  datatype Message = Message(data: MessageData, source: Option<IframeId>)

  /** `{"event": name, "info": info}` as the player posts it. */
  function PlayerEvent(name: string, info: Json): Json {
    JObject([Member("event", JString(name)), Member("info", info)])
  }

  lemma PlayerEventFields(name: string, info: Json)
    ensures Field(PlayerEvent(name, info), "event") == Some(JString(name))
    ensures Field(PlayerEvent(name, info), "info") == Some(info)
  {
    var ms := [Member("event", JString(name)), Member("info", info)];
    assert "info" != "event" by { assert "info"[0] != "event"[0]; }
    assert ms[..1] == [Member("event", JString(name))];
    assert MemberValue(ms[..1], "event") == Some(JString(name));
  }
}
