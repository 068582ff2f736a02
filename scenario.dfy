/** A client of the service's contracts: the round a browser session goes through. */
module Scenario {
  import opened Wrappers
  import JsString
  import Jwt
  import Auth
  import opened Http
  import opened Snippets
  import opened SnippetStore
  import opened Server

  /**
   * Log in and open a session on a new service; then the same token seven days after the
   * login is forbidden and the listing it asks for is not served.
   */
  method LoginCreateListDelete()
  {
    var loginMs := 1_700_000_000_000;
    var config := Auth.Config(Some((p: string) => p == "open sesame"), Some(42),
                              (k: Jwt.Secret, a: string, i: nat, e: nat) => k + e);
    var login := Auth.Login(config, Some("open sesame"), loginMs);
    assert login.status == 200;
    var header := Some("Bearer " + login.body.token);

    var svc := new Service(config);
    Auth.LoginTokenOpensGate(config, Some("open sesame"), loginMs, loginMs + 1000);
    Auth.LoginTokenOpensGate(config, Some("open sesame"), loginMs, loginMs + 2000);
    Auth.LoginTokenOpensGate(config, Some("open sesame"), loginMs, loginMs + 3000);
    CreateListDelete(svc, header, loginMs + 1000);

    var lateMs := loginMs + Jwt.SevenDays * 1000;
    Auth.LoginTokenOpensGate(config, Some("open sesame"), loginMs, lateMs);
    var late := svc.List(header, lateMs, false);
    assert late == Response(403, StatusText);
  }

  /**
   * With a header the gate admits for the next few seconds, save a snippet on an empty
   * service, find it in the listing, and delete it again.
   */
  method CreateListDelete(svc: Service, header: Option<string>, startMs: nat)
    requires svc.Valid() && svc.store == []
    requires Auth.Gate(svc.config.jwtSecret, svc.config.hmac, header, startMs).Admit?
    requires Auth.Gate(svc.config.jwtSecret, svc.config.hmac, header, startMs + 1000).Admit?
    requires Auth.Gate(svc.config.jwtSecret, svc.config.hmac, header, startMs + 2000).Admit?
    modifies svc
    ensures svc.Valid() && svc.store == []
  {
    assert !JsString.IsWhitespace("hello"[0]);
    var created := svc.Create(header, startMs, Some("hello"), false);
    assert created.status == 201;
    var x := created.body.snippet;
    assert x.text == "hello" && svc.store == [x];

    var listed := svc.List(header, startMs + 1000, false);
    assert listed.status == 200;
    assert x in multiset(listed.body.snippets);

    var deleted := svc.Delete(header, startMs + 2000, x.id, false);
    assert deleted.status == 200;
  }
}
