/**
 * What travels over a connection. Frames carry JSON. A message is modelled
 * as the field map of a JSON object; frames that parse to any other value
 * are not modelled.
 */
module Messages {
  import opened Wrappers
  import opened Registry

  /** A parsed JSON value. Numbers are kept abstract as integers. */
  datatype Json =
    | JNull
    | JBool(b: bool)
    | JNumber(n: int)
    | JString(s: string)
    | JArray(items: seq<Json>)
    | JObject(fields: map<string, Json>)

  /** A JSON object received from or sent to a client, as a field map. */
  type Message = map<string, Json>

  /**
   * The identifier a message is addressed to. Identifiers are strings and the
   * relay compares with `===`, so only a string `target` can ever match; a
   * missing or non-string `target` addresses no one.
   */
  function Target(msg: Message): (r: Option<Id>)
    ensures r.Some? <==> "target" in msg && msg["target"].JString?
    ensures r.Some? ==> msg["target"] == JString(r.value)
  {
    if "target" in msg && msg["target"].JString? then Some(msg["target"].s) else None
  }

  /**
   * `message.sender = id`: the field is set to the given identifier whether or
   * not the message already had one, and every other field is kept.
   */
  function WithSender(msg: Message, id: Id): (r: Message)
    ensures r.Keys == msg.Keys + {"sender"}
    ensures r["sender"] == JString(id)
    ensures forall f :: f in msg && f != "sender" ==> r[f] == msg[f]
  {
    msg["sender" := JString(id)]
  }

  /** Stamping a sender twice keeps only the last stamp, and never readdresses the message. */
  lemma WithSenderOverwrites(msg: Message, a: Id, b: Id)
    ensures WithSender(WithSender(msg, a), b) == WithSender(msg, b)
    ensures Target(WithSender(msg, a)) == Target(msg)
  {
    assert WithSender(WithSender(msg, a), b).Keys == WithSender(msg, b).Keys;
  }

  /** What the relay sends to a client. */
  datatype Payload =
    | Init(id: Id, otherClientIds: seq<Id>)   // `{ type: "init", id, otherClientIds }`
    | NewPeer(id: Id)                         // `{ type: "new-peer", id }`
    | Relayed(message: Message)               // a client's message, stamped with its sender

  /** One `send` call: the recipient's handle and the payload written to it. */
  datatype Send = Send(to: Handle, payload: Payload)

  function IdList(ids: seq<Id>): (r: seq<Json>)
    ensures |r| == |ids|
    ensures forall i :: 0 <= i < |ids| ==> r[i] == JString(ids[i])
  {
    if |ids| == 0 then [] else [JString(ids[0])] + IdList(ids[1..])
  }

  /** The JSON object a payload is serialized from. */
  function Encode(p: Payload): (r: Message)
    ensures p.Init? ==> r.Keys == {"type", "id", "otherClientIds"} && r["type"] == JString("init")
    ensures p.NewPeer? ==> r.Keys == {"type", "id"} && r["type"] == JString("new-peer")
    ensures !p.Relayed? ==> r["id"] == JString(p.id)
    ensures p.Relayed? ==> r == p.message
  {
    match p
    case Init(id, others) =>
      map["type" := JString("init"), "id" := JString(id), "otherClientIds" := JArray(IdList(others))]
    case NewPeer(id) => map["type" := JString("new-peer"), "id" := JString(id)]
    case Relayed(m) => m
  }

  function DecodeIdList(items: seq<Json>): (r: Option<seq<Id>>)
    ensures r.Some? <==> forall i :: 0 <= i < |items| ==> items[i].JString?
    ensures r.Some? ==> |r.value| == |items| && forall i :: 0 <= i < |items| ==> items[i] == JString(r.value[i])
  {
    if |items| == 0 then Some([])
    else if !items[0].JString? then None
    else match DecodeIdList(items[1..])
      case None => None
      case Some(rest) => Some([items[0].s] + rest)
  }

  /**
   * How a client reads a relay-originated payload back: by its `type` field.
   * Anything else is left to the client and decodes as None.
   */
  function DecodeServerPayload(m: Message): (r: Option<Payload>)
    ensures r.Some? ==> !r.value.Relayed? && "type" in m && "id" in m && m["id"] == JString(r.value.id)
  {
    if "type" !in m || "id" !in m || !m["id"].JString? then None
    else if m["type"] == JString("init") && "otherClientIds" in m && m["otherClientIds"].JArray? then
      match DecodeIdList(m["otherClientIds"].items)
      case None => None
      case Some(others) => Some(Init(m["id"].s, others))
    else if m["type"] == JString("new-peer") then Some(NewPeer(m["id"].s))
    else None
  }

  /** Every payload the relay originates reads back as itself. */
  lemma DecodeEncode(p: Payload)
    requires !p.Relayed?
    ensures DecodeServerPayload(Encode(p)) == Some(p)
  {
    if p.Init? {
      var items := IdList(p.otherClientIds);
      var back := DecodeIdList(items);
      assert back.Some?;
      assert back.value == p.otherClientIds;
    }
  }
}
