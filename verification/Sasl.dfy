/** A client and a server that authenticate (src/gauth/gsaslclient.cpp, src/gauth/gsaslserverbasic.cpp). */
module Sasl {
  import opened Wrappers
  import opened Str
  import Cram
  import Client = SaslClient
  import Server = SaslServer
  import SF = SecretsFile

  datatype Outcome = Outcome(done: bool, authenticated: bool, id: string)

  /** How things end: the server has decided, or the client has given up. */
  function End(step: Server.Step): Outcome {
    Outcome(step.done, step.state.authenticated, Server.Id(step.state))
  }

  const GIVEN_UP := Outcome(false, false, "")

  /** The whole dialogue for one mechanism: the server's challenges and the client's replies in turn. */
  function Dialogue(c: Server.Config, f: SF.Store, selector: string, isSecure: bool, mechanism: string, text: string): Outcome
  {
    var s := Server.Run(c, [Server.Init(isSecure, mechanism, text)]);
    var reply := Client.ReplyTo(f, c.lib, mechanism, Server.InitialChallenge(s), selector);
    if reply == None || reply.value.error then GIVEN_UP
    else
      var step := Server.Applied(c.f, c.lib, s, reply.value.data);
      if step.done then End(step)
      else
        var second := Client.ReplyTo(f, c.lib, mechanism, step.next, selector);
        if second == None || second.value.error then GIVEN_UP
        else End(Server.Applied(c.f, c.lib, step.state, second.value.data))
  }

  predicate Offers(c: Server.Config, isSecure: bool, mechanism: string) {
    mechanism != "" && Upper(mechanism) == mechanism && mechanism in (if isSecure then c.secure else c.insecure)
  }

  /** The server's state when it has been asked for a mechanism that it offers. */
  lemma Offered(c: Server.Config, isSecure: bool, mechanism: string, text: string)
    requires Offers(c, isSecure, mechanism)
    ensures Server.Run(c, [Server.Init(isSecure, mechanism, text)])
      == Server.RESET.(mechanism := mechanism,
                       challenge := if mechanism == "APOP" || Cram.IsCram(mechanism) then text else "")
  {
    var events := [Server.Init(isSecure, mechanism, text)];
    assert events[..0] == [];
  }

  /** No dialogue begins with a mechanism that is not offered on that kind of connection. */
  lemma NotOffered(c: Server.Config, isSecure: bool, mechanism: string, text: string)
    requires Upper(mechanism) !in (if isSecure then c.secure else c.insecure)
    ensures Server.Run(c, [Server.Init(isSecure, mechanism, text)]).mechanism == ""
  {
    hide Upper;
    var events := [Server.Init(isSecure, mechanism, text)];
    assert events[..0] == [];
  }

  /** Both sides are done, and agree on who the client is. */
  predicate Succeeds(o: Outcome, secret: SF.Secret) {
    o == Outcome(true, true, secret.id)
  }

  // ----- CRAM

  /** The secrets of the two sides for a kind of hash: those for the kind, or else the plain ones. */
  function ClientSecretFor(f: SF.Store, kind: string, selector: string): SF.Secret {
    if SF.ClientSecret(f, kind, selector).Valid() then SF.ClientSecret(f, kind, selector)
    else SF.ClientSecret(f, "plain", selector)
  }

  function ServerSecretFor(f: SF.Store, kind: string, id: string): SF.Secret {
    if SF.ServerSecret(f, kind, id).Valid() then SF.ServerSecret(f, kind, id) else SF.ServerSecret(f, "plain", id)
  }

  /** A challenge is answered so that the server accepts it exactly when the two secrets give the same
      response, which names the identity of the client's secret. */
  lemma CramDialogue(c: Server.Config, f: SF.Store, selector: string, isSecure: bool, kind: string, text: string)
    requires Offers(c, isSecure, "CRAM-" + kind)
    requires ClientSecretFor(f, kind, selector).Valid() && ClientSecretFor(f, kind, selector).id != ""
    ensures var ours := ClientSecretFor(f, kind, selector);
      var theirs := ServerSecretFor(c.f, kind, ours.id);
      var response := Cram.ResponseImp(c.lib, kind, true, ours, text);
      Succeeds(Dialogue(c, f, selector, isSecure, "CRAM-" + kind, text), ours) <==>
        && response.Some? && response != Some("")
        && Cram.ResponseImp(c.lib, kind, true, theirs, text) == response
  {
    hide Cram.ResponseImp, SF.ServerSecret, SF.ClientSecret, Upper, Cram.Validate, Cram.Id, Server.Run;
    var mechanism := "CRAM-" + kind;
    assert mechanism[5..] == kind;
    var ours := ClientSecretFor(f, kind, selector);
    var theirs := ServerSecretFor(c.f, kind, ours.id);
    Offered(c, isSecure, mechanism, text);
    NoSecretNoResponse(c.lib, kind, theirs, text);
    CramIsNotApop(mechanism);
    if Cram.ResponseImp(c.lib, kind, true, ours, text).Some? {
      Cram.Exchange(c.lib, kind, true, ours, theirs, text, ours.id);
    }
  }

  lemma CramIsNotApop(mechanism: string)
    ensures Cram.IsCram(mechanism) ==> mechanism != "APOP" && mechanism != "PLAIN" && mechanism != "LOGIN"
  {
    if Cram.IsCram(mechanism) {
      assert mechanism[0] == 'C';
    }
  }

  lemma NoSecretNoResponse(lib: Cram.Library, kind: string, secret: SF.Secret, challenge: string)
    ensures !secret.Valid() ==> Cram.ResponseImp(lib, kind, true, secret, challenge) == None
  {
  }

  /** CRAM-MD5 succeeds whenever both sides hold the same password, whichever of them has it masked, and
      whatever spaces there are in the identity. */
  lemma CramMd5Succeeds(c: Server.Config, f: SF.Store, selector: string, isSecure: bool, text: string, password: string)
    requires Offers(c, isSecure, "CRAM-MD5")
    requires var ours := ClientSecretFor(f, "MD5", selector); ours.Valid() && ours.id != "" && Cram.Holds(ours, password)
    requires var theirs := ServerSecretFor(c.f, "MD5", ClientSecretFor(f, "MD5", selector).id);
      theirs.Valid() && Cram.Holds(theirs, password)
    ensures Succeeds(Dialogue(c, f, selector, isSecure, "CRAM-MD5", text), ClientSecretFor(f, "MD5", selector))
  {
    hide Cram.ResponseImp, ClientSecretFor, ServerSecretFor, Upper, Cram.Holds, Dialogue;
    var ours := ClientSecretFor(f, "MD5", selector);
    var theirs := ServerSecretFor(c.f, "MD5", ours.id);
    assert "CRAM-" + "MD5" == "CRAM-MD5";
    CramDialogue(c, f, selector, isSecure, "MD5", text);
    Cram.SameResponse(c.lib, "MD5", ours, password, text);
    Cram.SameResponse(c.lib, "MD5", theirs, password, text);
  }

  // ----- PLAIN

  /** PLAIN succeeds exactly when the server has the same password for the identity, which may hold no
      NUL character. */
  lemma PlainDialogue(c: Server.Config, f: SF.Store, selector: string, isSecure: bool, text: string)
    requires Offers(c, isSecure, "PLAIN") && SF.ClientSecret(f, "plain", selector).Valid()
    ensures var ours := SF.ClientSecret(f, "plain", selector);
      var theirs := SF.ServerSecret(c.f, "plain", ours.id);
      Succeeds(Dialogue(c, f, selector, isSecure, "PLAIN", text), ours) <==>
        '\0' !in ours.id && ours.id != "" && theirs.Valid() && theirs.secret == ours.secret
  {
    hide SF.ClientSecret, SF.ServerSecret, Upper, FindFirstOf, Server.Run;
    var ours := SF.ClientSecret(f, "plain", selector);
    var id, password := ours.id, ours.secret;
    var response := [Server.NUL] + id + [Server.NUL] + password;
    var fields := id + [Server.NUL] + password;
    Server.SplitAt("", Server.NUL, fields);
    assert response == "" + [Server.NUL] + fields;
    HeadHasNone(fields, Server.NUL);
    if Server.NUL !in id {
      Server.SplitAt(id, Server.NUL, password);
    }
    hide TailFrom, Head;
    var s := Server.Run(c, [Server.Init(isSecure, "PLAIN", text)]);
    Cram.NotCram();
    Offered(c, isSecure, "PLAIN", text);
    assert s == Server.RESET.(mechanism := "PLAIN");
    var reply := Client.ReplyTo(f, c.lib, "PLAIN", "", selector);
    assert reply.value.data == response;
    var step := Server.Applied(c.f, c.lib, s, response);
    assert step.state.authenticated ==> step.state.id == Head(fields, Server.NUL, "");
    assert Dialogue(c, f, selector, isSecure, "PLAIN", text) == End(step);
  }

  lemma HeadHasNone(s: string, c: char)
    ensures c !in Head(s, c, "")
  {
    FirstOf(s, {c});
  }

  // ----- LOGIN

  /** LOGIN takes two replies, and succeeds exactly when the server has the same password. */
  lemma LoginDialogue(c: Server.Config, f: SF.Store, selector: string, isSecure: bool, text: string)
    requires Offers(c, isSecure, "LOGIN") && SF.ClientSecret(f, "plain", selector).Valid()
    ensures var ours := SF.ClientSecret(f, "plain", selector);
      var theirs := SF.ServerSecret(c.f, "plain", ours.id);
      Succeeds(Dialogue(c, f, selector, isSecure, "LOGIN", text), ours) <==>
        ours.id != "" && theirs.Valid() && theirs.secret == ours.secret
  {
    hide SF.ClientSecret, SF.ServerSecret, Upper, Server.Run;
    Cram.NotCram();
    Offered(c, isSecure, "LOGIN", text);
    NoIdNoSecret(c.f);
  }

  lemma NoIdNoSecret(f: SF.Store)
    ensures !SF.ServerSecret(f, "plain", "").Valid()
  {
  }
}
