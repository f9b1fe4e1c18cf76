/**
 * `useWebhook`: after a capture, the captured data is POSTed as JSON to a
 * user-configured endpoint when the webhook is enabled. The settings come from
 * the browser's local storage; the request is fire-and-forget and its outcome
 * only ever produces an alert.
 */
module Webhook {
  import opened Wrappers
  import opened Text

  /** The `webhook_enabled`, `webhook_url` and `webhook_token` local-storage items (None where unset). */
  datatype Settings = Settings(enabled: Option<string>, url: Option<string>, token: Option<string>)

  /** A `fetch` call: HTTP method, endpoint, headers in insertion order, and the payload serialised as the body. */
  datatype Request<T> = Request(verb: string, url: string, headers: seq<(string, string)>, body: T)

  /** The value of the first header named `name`, if any. */
  function HeaderValue(hs: seq<(string, string)>, name: string): (r: Option<string>)
    ensures r.Some? <==> exists i | 0 <= i < |hs| :: hs[i].0 == name
    ensures r.Some? ==> exists i | 0 <= i < |hs| :: hs[i] == (name, r.value)
    decreases |hs|
  {
    if |hs| == 0 then None
    else if hs[0].0 == name then Some(hs[0].1)
    else
      var r := HeaderValue(hs[1..], name);
      assert forall i | 0 <= i < |hs| - 1 :: hs[1..][i] == hs[i + 1];
      assert (exists i | 0 <= i < |hs| :: hs[i].0 == name) ==> exists i | 0 <= i < |hs| - 1 :: hs[1..][i].0 == name by {
        if exists i | 0 <= i < |hs| :: hs[i].0 == name {
          var i :| 0 <= i < |hs| && hs[i].0 == name;
          assert hs[1..][i - 1].0 == name;
        }
      }
      r
  }

  /** The webhook is on only when `webhook_enabled` holds exactly the string "true". */
  predicate Enabled(s: Settings) {
    s.enabled == Some("true")
  }

  /**
   * `handleWebhookCall`: no request when the webhook is not enabled or has no
   * (or an empty) url; otherwise a POST of the payload to that url, with a
   * JSON content type and, when a token is set and non-empty, a bearer
   * authorization header.
   */
  function Plan<T>(s: Settings, payload: T): (r: Option<Request<T>>)
    ensures r.Some? <==> Enabled(s) && Truthy(s.url)
    ensures r.Some? ==> r.value.verb == "POST" && r.value.url == s.url.value && r.value.body == payload
    ensures r.Some? ==> 1 <= |r.value.headers| <= 2
  {
    if !Enabled(s) || !Truthy(s.url) then None
    else
      var hs := [("Content-Type", "application/json")]
                + (if Truthy(s.token) then [("Authorization", "Bearer " + s.token.value)] else []);
      Some(Request("POST", s.url.value, hs, payload))
  }

  /**
   * The headers of a planned request: the content type is always JSON, and
   * an authorization header is there exactly when the token is truthy,
   * carrying that token as a bearer credential.
   */
  lemma PlanHeaders<T>(s: Settings, payload: T)
    requires Plan(s, payload).Some?
    ensures var hs := Plan(s, payload).value.headers;
            && HeaderValue(hs, "Content-Type") == Some("application/json")
            && (HeaderValue(hs, "Authorization").Some? <==> Truthy(s.token))
            && (Truthy(s.token) ==> HeaderValue(hs, "Authorization") == Some("Bearer " + s.token.value))
            && |hs| == (if Truthy(s.token) then 2 else 1)
            && hs[0] == ("Content-Type", "application/json")
            && (Truthy(s.token) ==> hs[1] == ("Authorization", "Bearer " + s.token.value))
  {
    var hs := Plan(s, payload).value.headers;
    assert hs[0] == ("Content-Type", "application/json");
    if Truthy(s.token) {
      assert hs[1] == ("Authorization", "Bearer " + s.token.value);
      assert HeaderValue(hs[1..], "Authorization") == Some("Bearer " + s.token.value);
    } else {
      assert hs == [("Content-Type", "application/json")];
    }
  }

  /** What `fetch` gave back: a response with its `ok` flag and status text, or a rejection with its message. */
  datatype Response = Answered(ok: bool, statusText: string) | Rejected(message: string)

  /**
   * `makeRequest`'s handling of the outcome: silence for a 2xx response;
   * otherwise an alert naming the status text or the error message.
   */
  function Alert(resp: Response): (r: Option<string>)
    ensures r.None? <==> resp.Answered? && resp.ok
    ensures resp.Answered? && !resp.ok ==> r == Some("Falha ao enviar webhook: " + resp.statusText)
    ensures resp.Rejected? ==> r == Some("Erro ao enviar webhook: " + resp.message)
  {
    match resp
    case Answered(ok, text) => if ok then None else Some("Falha ao enviar webhook: " + text)
    case Rejected(msg) => Some("Erro ao enviar webhook: " + msg)
  }

  /**
   * Different failures give different alerts: an alert tells which kind of
   * failure happened and carries its status text or message unchanged.
   */
  lemma AlertDistinguishes(a: Response, b: Response)
    requires Alert(a).Some? && Alert(a) == Alert(b)
    ensures a == b
  {
    var m := Alert(a).value;
    var fail := "Falha ao enviar webhook: ";
    var err := "Erro ao enviar webhook: ";
    assert m[0] == 'F' <==> a.Answered?;
    assert m[0] == 'F' <==> b.Answered?;
    if a.Answered? {
      assert a.statusText == m[|fail|..];
      assert b.statusText == m[|fail|..];
    } else {
      assert a.message == m[|err|..];
      assert b.message == m[|err|..];
    }
  }
}
