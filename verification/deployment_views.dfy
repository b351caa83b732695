/** The decision rules of the deployment web views: which actions the
    detail page offers, and how the GitHub webhook endpoint answers a
    delivery. */
module DeploymentViews {
  import opened Wrappers
  import opened DeploymentModel

  /** The actions the detail page offers. */
  datatype ActionFlags = ActionFlags(canStart: bool, canStop: bool, canRestart: bool)

  /** The flags `deployment_detail_view` computes from the status. */
  function DetailFlags(s: DeploymentStatus): (f: ActionFlags)
    ensures f.canStart <==> s == Stopped || s == Failed
    ensures f.canStop <==> s == Running
    ensures f.canRestart == f.canStop
  {
    ActionFlags(s in {Stopped, Failed}, s == Running, s == Running)
  }

  /** No status offers both starting and stopping, and only a finished run
      (running, stopped or failed) offers any action at all. */
  lemma FlagsExclusive(s: DeploymentStatus)
    ensures !(DetailFlags(s).canStart && DetailFlags(s).canStop)
    ensures DetailFlags(s).canStart || DetailFlags(s).canStop <==> s in {Running, Stopped, Failed}
  {
  }

  /** A delivery as the endpoint receives it: the body, `None` when it is
      not valid JSON, and the `X-GitHub-Event` header, if sent. */
  datatype WebhookRequest = WebhookRequest(body: Option<JsonPayload>, eventHeader: Option<string>)

  /** The HTTP status answered, the event row recorded (if any), and whether
      a redeploy was started. */
  datatype WebhookReply = WebhookReply(status: int, event: Option<WebhookEvent>, redeploy: bool)

  /** `request.headers.get('X-GitHub-Event', 'unknown')`. */
  function EventType(req: WebhookRequest): (t: string)
    ensures req.eventHeader.Some? ==> t == req.eventHeader.value
    ensures req.eventHeader.None? ==> t == "unknown"
  {
    req.eventHeader.GetOr("unknown")
  }

  /** The branch reference a push must carry to redeploy. */
  function TargetRef(branch: string): (r: string)
    ensures |r| == |branch| + 11 && r[11..] == branch
  {
    "refs/heads/" + branch
  }

  /** `github_webhook_view`. A missing deployment is a 404. With auto-deploy
      off nothing is recorded. An unparsable body fails before the event row
      exists, and so does a `null` body, which the non-null `payload`
      column refuses; a push whose body is not a JSON object fails after it exists,
      leaving it unprocessed. Otherwise the row is marked processed, and it
      triggers a redeploy exactly when it is a push to the deployment's
      branch. */
  function HandleWebhook(found: Option<Deployment>, req: WebhookRequest): (r: WebhookReply)
    ensures found.None? ==> r == WebhookReply(404, None, false)
    ensures found.Some? && !found.value.autoDeploy ==> r == WebhookReply(400, None, false)
    ensures found.Some? && found.value.autoDeploy && req.body.None? ==> r == WebhookReply(500, None, false)
    ensures found.Some? && found.value.autoDeploy && req.body == Some(JsonNull) ==> r == WebhookReply(500, None, false)
    ensures r.event.Some? <==> found.Some? && found.value.autoDeploy && req.body.Some? && !req.body.value.JsonNull?
    ensures r.event.Some? ==>
              r.event.value.deploymentId == found.value.id && r.event.value.eventType == EventType(req)
              && r.event.value.payload == req.body.value
              && (r.event.value.triggeredDeployment <==> r.redeploy)
              && (r.event.value.processed <==> r.status == 200)
    ensures r.redeploy <==>
              found.Some? && found.value.autoDeploy && req.body.Some? && EventType(req) == "push"
              && req.body.value == JsonObject(Some(TargetRef(found.value.branch)))
    ensures r.event.Some? && r.status != 200 ==>
              r.status == 500 && EventType(req) == "push" && req.body.value.JsonOther?
    ensures r.status in {200, 400, 404, 500}
  {
    match found
    case None => WebhookReply(404, None, false)
    case Some(d) =>
      if !d.autoDeploy then WebhookReply(400, None, false)
      else
        match req.body
        case None => WebhookReply(500, None, false)
        case Some(JsonNull) => WebhookReply(500, None, false)
        case Some(payload) =>
          var event := NewWebhookEvent(d.id, EventType(req), payload);
          if EventType(req) != "push" then WebhookReply(200, Some(event.(processed := true)), false)
          else
            match payload
            case JsonOther => WebhookReply(500, Some(event), false)
            case JsonObject(ref) =>
              var trigger := ref.GetOr("") == TargetRef(d.branch);
              WebhookReply(200, Some(event.(triggeredDeployment := trigger, processed := true)), trigger)
  }

  /** A push to any other branch, and every event that is not a push, is
      recorded and processed without a redeploy. */
  lemma OtherBranchIsOnlyRecorded(d: Deployment, req: WebhookRequest, other: string)
    requires d.autoDeploy && other != d.branch
    requires req.body == Some(JsonObject(Some(TargetRef(other))))
    ensures var r := HandleWebhook(Some(d), req);
      r.status == 200 && !r.redeploy && r.event.Some? && r.event.value.processed
  {
    assert TargetRef(other)[11..] != TargetRef(d.branch)[11..];
  }

  /** Without auto-deploy no delivery, whatever its content, is recorded or
      redeploys. */
  lemma DisabledIgnoresEverything(d: Deployment, req1: WebhookRequest, req2: WebhookRequest)
    requires !d.autoDeploy
    ensures HandleWebhook(Some(d), req1) == HandleWebhook(Some(d), req2)
    ensures HandleWebhook(Some(d), req1).event.None?
  {
  }
}
