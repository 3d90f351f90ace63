/**
 * The portrait endpoint `POST /api/ai/portrait`
 * (src/app/api/ai/portrait/route.ts): it answers 401 without a user and
 * 400 when the user's trips are unavailable or fewer than three; otherwise
 * it asks the language model, answers 500 when that throws, and else parses
 * the reply, records it in `ai_portraits` (ignoring a failed insert) and
 * answers with the parsed portrait. The model's reply, the environment and
 * the backend's failures are inputs.
 */
module PortraitRoute {
  import opened Options
  import opened Strings
  import opened Backend
  import opened ParsePortrait

  const MinTrips: nat := 3
  const DefaultGeminiModel: string := "gemini-2.0-flash"
  const UnauthorizedMessage: string := "Unauthorized"
  const TooFewTripsMessage: string := "Add at least 3 trips to generate your traveler portrait"
  const LlmFailedMessage: string := "LLM request failed"

  /** The environment variables `LLM_PROVIDER` and `GEMINI_MODEL`. */
  datatype Env = Env(llmProvider: Option<string>, geminiModel: Option<string>)

  /**
   * The recorded model version: "gemini/<model>" for the gemini provider
   * (model defaulting to gemini-2.0-flash), otherwise the provider's name,
   * "gemini" when it is unset. A set but empty provider is kept as "".
   */
  function ModelVersion(env: Env): (v: string)
    ensures env.llmProvider == Some("gemini") ==> v == "gemini/" + env.geminiModel.GetOr(DefaultGeminiModel)
    ensures env.llmProvider.None? ==> v == "gemini"
    ensures env.llmProvider.Some? && env.llmProvider.value != "gemini" ==> v == env.llmProvider.value
  {
    if env.llmProvider == Some("gemini") then "gemini/" + env.geminiModel.GetOr(DefaultGeminiModel)
    else env.llmProvider.GetOr("gemini")
  }

  /** What `generateText` throws: an `Error` with its message, or some other value. */
  datatype Thrown = ErrorObject(message: string) | OtherValue

  /** How the call to the model ends. */
  datatype LlmReply = Reply(text: string) | Throws(thrown: Thrown)

  datatype Body = ErrorBody(error: string) | PortraitBody(portrait: Portrait)

  datatype Response = Response(status: nat, body: Body)

  /** The response, the row to record, and whether the model is asked at all. */
  datatype Outcome = Outcome(response: Response, row: Option<PortraitRow>, asksModel: bool)

  /** The number of the user's trips (the rows of the trips query). */
  function TripCount(trips: seq<TripRow>, user: UserId): (n: nat)
    ensures n <= |trips|
    ensures (forall i :: 0 <= i < |trips| ==> trips[i].userId != user) ==> n == 0
    ensures (forall i :: 0 <= i < |trips| ==> trips[i].userId == user) ==> n == |trips|
    ensures n > 0 ==> exists i :: 0 <= i < |trips| && trips[i].userId == user
  {
    if trips == [] then 0 else (if trips[0].userId == user then 1 else 0) + TripCount(trips[1..], user)
  }

  /** `archetype || null`. */
  function ArchetypeColumn(archetype: string): (c: Option<string>)
    ensures c.None? <==> archetype == ""
    ensures c.Some? ==> c.value == archetype
  {
    if archetype == "" then None else Some(archetype)
  }

  /** The handler's decision, given the user, the trip query's row count (None when it returns no data) and the model's reply. */
  function Respond(user: Option<UserId>, trips: Option<nat>, reply: LlmReply, env: Env, lower: CaseMap): (o: Outcome)
    ensures user.None? ==> o == Outcome(Response(401, ErrorBody(UnauthorizedMessage)), None, false)
    ensures user.Some? && (trips.None? || trips.value < MinTrips) ==>
              o == Outcome(Response(400, ErrorBody(TooFewTripsMessage)), None, false)
    ensures o.asksModel <==> user.Some? && trips.Some? && trips.value >= MinTrips
    ensures o.asksModel && reply.Throws? ==>
              o.response == Response(500, ErrorBody(if reply.thrown.ErrorObject? then reply.thrown.message else LlmFailedMessage))
              && o.row.None?
    ensures o.response.status == 200 <==> o.row.Some?
    ensures o.row.Some? ==> o.asksModel && reply.Reply? && user.Some? && trips.Some?
    ensures o.asksModel && reply.Reply? ==>
              var p := Parse(reply.text, lower);
              && o.response == Response(200, PortraitBody(p))
              && o.row == Some(PortraitRow(user.value, ArchetypeColumn(p.archetype), reply.text, trips.value, ModelVersion(env)))
  {
    if user.None? then Outcome(Response(401, ErrorBody(UnauthorizedMessage)), None, false)
    else if trips.None? || trips.value < MinTrips then Outcome(Response(400, ErrorBody(TooFewTripsMessage)), None, false)
    else match reply
      case Throws(ErrorObject(msg)) => Outcome(Response(500, ErrorBody(msg)), None, true)
      case Throws(OtherValue) => Outcome(Response(500, ErrorBody(LlmFailedMessage)), None, true)
      case Reply(text) =>
        var p := Parse(text, lower);
        Outcome(Response(200, PortraitBody(p)),
                Some(PortraitRow(user.value, ArchetypeColumn(p.archetype), text, trips.value, ModelVersion(env))), true)
  }

  /** The 200 body always carries the whole reply as `raw`, whatever the parser finds. */
  lemma SuccessKeepsRawReply(user: UserId, trips: nat, text: string, env: Env, lower: CaseMap)
    requires trips >= MinTrips
    ensures var o := Respond(Some(user), Some(trips), Reply(text), env, lower);
            o.response.body.PortraitBody? && o.response.body.portrait.raw == text && o.row.value.content == text
  {
  }

  /** The recorded archetype is null exactly when the parsed archetype is empty. */
  lemma RecordedArchetype(user: UserId, trips: nat, text: string, env: Env, lower: CaseMap)
    requires trips >= MinTrips
    ensures var o := Respond(Some(user), Some(trips), Reply(text), env, lower);
            o.row.value.archetype.None? <==> Parse(text, lower).archetype == ""
  {
  }

  /** The handler: reads the user's trips, asks the model, records the portrait unless the insert fails, and answers. */
  method Post(db: Database, user: Option<UserId>, tripsQueryFails: bool, reply: LlmReply, env: Env,
              insertFails: bool, lower: CaseMap)
    returns (response: Response, askedModel: bool)
    modifies db
    ensures var o := Respond(user, if user.None? || tripsQueryFails then None else Some(TripCount(old(db.trips), user.value)),
                             reply, env, lower);
            && response == o.response && askedModel == o.asksModel
            && db.portraits == (if o.row.Some? && !insertFails then old(db.portraits) + [o.row.value] else old(db.portraits))
    ensures db.trips == old(db.trips) && db.photos == old(db.photos) && db.visited == old(db.visited)
    ensures db.storage == old(db.storage) && db.nextId == old(db.nextId)
  {
    var trips := if user.None? || tripsQueryFails then None else Some(TripCount(db.trips, user.value));
    var o := Respond(user, trips, reply, env, lower);
    if o.row.Some? && !insertFails {
      db.portraits := db.portraits + [o.row.value];
    }
    response, askedModel := o.response, o.asksModel;
  }
}
