/** The two last-payload endpoints: each keeps, in one module-level
    variable, the last JSON array posted to it and hands it back on GET.
    A body that is not an array, or not JSON at all (None), is refused
    with status 400 and leaves the stored value as it was. */
module PayloadStores {
  import opened Common

  datatype Json =
    | JNull
    | JBool(b: bool)
    | JNum(x: real)
    | JStr(s: string)
    | JArr(items: seq<Json>)
    | JObj(fields: map<string, Json>)

  datatype Response = Response(status: int, body: Json)

  function Ok(body: Json): Response { Response(200, body) }

  function ErrorBody(message: string): Json {
    JObj(map["status" := JStr("error"), "message" := JStr(message)])
  }

  const ExpectedArray := "Se esperaba un array"
  const RecibirBadJson := "Error al procesar el JSON"
  const RootBadJson := "JSON inválido"

  // ---------------------------------------------------------------------
  // The receiving endpoint: stores any array, starts as null, echoes the
  // array back.

  /** The stored value and the response after one POST. */
  function RecibirPost(stored: Json, body: Option<Json>): (r: (Json, Response))
    ensures body.Some? && body.value.JArr? ==>
              r.0 == body.value && r.1 == Ok(JObj(map["status" := JStr("ok"), "recibido" := body.value]))
    ensures !(body.Some? && body.value.JArr?) ==> r.0 == stored && r.1.status == 400
    ensures body.None? ==> r.1 == Response(400, ErrorBody(RecibirBadJson))
    ensures body.Some? && !body.value.JArr? ==> r.1 == Response(400, ErrorBody(ExpectedArray))
  {
    if body.None? then (stored, Response(400, ErrorBody(RecibirBadJson)))
    else if !body.value.JArr? then (stored, Response(400, ErrorBody(ExpectedArray)))
    else (body.value, Ok(JObj(map["status" := JStr("ok"), "recibido" := body.value])))
  }

  function RecibirGet(stored: Json): Response {
    Ok(JObj(map["ultimoPost" := stored]))
  }

  /** The stored value after a sequence of POST bodies, starting from null. */
  function RecibirAfter(bodies: seq<Option<Json>>): Json
    decreases |bodies|
  {
    if bodies == [] then JNull
    else RecibirPost(RecibirAfter(bodies[..|bodies| - 1]), bodies[|bodies| - 1]).0
  }

  class RecibirStore {
    var ultimoPost: Json

    constructor()
      ensures ultimoPost == JNull
    {
      ultimoPost := JNull;
    }

    method Post(body: Option<Json>) returns (resp: Response)
      modifies this
      ensures (ultimoPost, resp) == RecibirPost(old(ultimoPost), body)
    {
      if body.None? {
        resp := Response(400, ErrorBody(RecibirBadJson));
      } else if !body.value.JArr? {
        resp := Response(400, ErrorBody(ExpectedArray));
      } else {
        ultimoPost := body.value;
        resp := Ok(JObj(map["status" := JStr("ok"), "recibido" := body.value]));
      }
    }

    method Get() returns (resp: Response)
      ensures resp == RecibirGet(ultimoPost)
    {
      resp := Ok(JObj(map["ultimoPost" := ultimoPost]));
    }
  }

  /** What GET returns is the last array posted, or null when no POST was
      ever accepted. */
  lemma {:induction false} RecibirHoldsLastArray(bodies: seq<Option<Json>>)
    ensures RecibirAfter(bodies) == JNull <==> forall i :: 0 <= i < |bodies| ==> !(bodies[i].Some? && bodies[i].value.JArr?)
    ensures RecibirAfter(bodies) != JNull ==>
              exists i :: 0 <= i < |bodies| && bodies[i] == Some(RecibirAfter(bodies))
                && forall j :: i < j < |bodies| ==> !(bodies[j].Some? && bodies[j].value.JArr?)
    decreases |bodies|
  {
    if bodies != [] {
      var init := bodies[..|bodies| - 1];
      RecibirHoldsLastArray(init);
      var n := |bodies| - 1;
      if !(bodies[n].Some? && bodies[n].value.JArr?) {
        if RecibirAfter(bodies) != JNull {
          var i :| 0 <= i < |init| && init[i] == Some(RecibirAfter(init))
                   && forall j :: i < j < |init| ==> !(init[j].Some? && init[j].value.JArr?);
          assert bodies[i] == Some(RecibirAfter(bodies));
        }
      } else {
        assert bodies[n] == Some(RecibirAfter(bodies));
      }
    }
  }

  /** A refused POST followed by GET returns what GET returned before. */
  lemma RecibirRefusedKeeps(stored: Json, body: Option<Json>)
    requires !(body.Some? && body.value.JArr?)
    ensures RecibirGet(RecibirPost(stored, body).0) == RecibirGet(stored)
  {
  }

  // ---------------------------------------------------------------------
  // The root endpoint: stores any array, starts empty, answers "ok".

  function RootPost(stored: seq<Json>, body: Option<Json>): (r: (seq<Json>, Response))
    ensures body.Some? && body.value.JArr? ==>
              r.0 == body.value.items && r.1 == Ok(JObj(map["status" := JStr("ok")]))
    ensures !(body.Some? && body.value.JArr?) ==> r.0 == stored && r.1.status == 400
    ensures body.None? ==> r.1 == Response(400, ErrorBody(RootBadJson))
    ensures body.Some? && !body.value.JArr? ==> r.1 == Response(400, ErrorBody(ExpectedArray))
  {
    if body.Some? && body.value.JArr? then (body.value.items, Ok(JObj(map["status" := JStr("ok")])))
    else if body.Some? then (stored, Response(400, ErrorBody(ExpectedArray)))
    else (stored, Response(400, ErrorBody(RootBadJson)))
  }

  function RootGet(stored: seq<Json>): Response {
    Ok(JObj(map["datos" := JArr(stored)]))
  }

  class RootStore {
    var ultimoPost: seq<Json>

    constructor()
      ensures ultimoPost == []
    {
      ultimoPost := [];
    }

    method Post(body: Option<Json>) returns (resp: Response)
      modifies this
      ensures (ultimoPost, resp) == RootPost(old(ultimoPost), body)
    {
      if body.Some? && body.value.JArr? {
        ultimoPost := body.value.items;
        resp := Ok(JObj(map["status" := JStr("ok")]));
      } else if body.Some? {
        resp := Response(400, ErrorBody(ExpectedArray));
      } else {
        resp := Response(400, ErrorBody(RootBadJson));
      }
    }

    method Get() returns (resp: Response)
      ensures resp == RootGet(ultimoPost)
    {
      resp := Ok(JObj(map["datos" := JArr(ultimoPost)]));
    }
  }

  /** GET right after an accepted POST returns exactly the posted array,
      whatever was stored before. */
  lemma PostThenGet(stored: Json, rootStored: seq<Json>, items: seq<Json>)
    ensures RecibirGet(RecibirPost(stored, Some(JArr(items))).0) == Ok(JObj(map["ultimoPost" := JArr(items)]))
    ensures RootGet(RootPost(rootStored, Some(JArr(items))).0) == Ok(JObj(map["datos" := JArr(items)]))
  {
  }

  /** Posting the same array twice is the same as posting it once. */
  lemma PostIdempotent(stored: Json, rootStored: seq<Json>, body: Option<Json>)
    ensures RecibirPost(RecibirPost(stored, body).0, body) == RecibirPost(stored, body)
    ensures RootPost(RootPost(rootStored, body).0, body) == RootPost(rootStored, body)
  {
  }
}
