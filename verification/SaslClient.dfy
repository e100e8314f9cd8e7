/** The client's side of authentication (src/gauth/gsaslclient.cpp). */
module SaslClient {
  import opened Wrappers
  import opened Str
  import Cram
  import SF = SecretsFile

  const NUL := '\0'
  const LOGIN_CHALLENGE_1 := "Username:"
  const LOGIN_CHALLENGE_2 := "Password:"

  datatype Reply = Reply(data: string, sensitive: bool, error: bool, final: bool)

  /** The secret for a mechanism under a selector. */
  function SecretFor(f: SF.Store, mechanism: string, selector: string): SF.Secret {
    if Cram.IsCram(mechanism) then
      var secret := SF.ClientSecret(f, mechanism[5..], selector);
      if secret.Valid() then secret else SF.ClientSecret(f, "plain", selector)
    else if mechanism == "APOP" then SF.ClientSecret(f, "MD5", selector)
    else if mechanism == "XOAUTH2" then SF.ClientSecret(f, "oauth", selector)
    else SF.ClientSecret(f, "plain", selector)
  }

  /** The reply to a challenge; none is the exception for the fields of a missing secret. */
  function ReplyTo(f: SF.Store, lib: Cram.Library, mechanism: string, challenge: string, selector: string): Option<Reply> {
    var secret := SecretFor(f, mechanism, selector);
    if Cram.IsCram(mechanism) then
      if !secret.Valid() then None
      else
        var data := Cram.Response(lib, mechanism[5..], true, secret, challenge, secret.id);
        Some(Reply(data, true, data == "", true))
    else if mechanism == "APOP" then
      if !secret.Valid() then None
      else
        var data := Cram.Response(lib, "MD5", false, secret, challenge, secret.id);
        Some(Reply(data, true, data == "", true))
    else if mechanism == "PLAIN" then
      if !secret.Valid() then None
      else Some(Reply([NUL] + secret.id + [NUL] + secret.secret, true, false, true))
    else if mechanism == "LOGIN" && challenge == LOGIN_CHALLENGE_1 then
      if !secret.Valid() then None else Some(Reply(secret.id, false, false, false))
    else if mechanism == "LOGIN" && challenge == LOGIN_CHALLENGE_2 then
      if !secret.Valid() then None else Some(Reply(secret.secret, true, false, true))
    else if mechanism == "XOAUTH2" && challenge == "" then
      if !secret.Valid() then None else Some(Reply(secret.secret, true, false, true))
    else if mechanism == "XOAUTH2" then
      if !secret.Valid() then None else Some(Reply("", false, false, true))
    else
      Some(Reply("", true, true, false))
  }

  // ----- the choice of a mechanism

  /** The hash types that the TLS library offers, all of them or only those that can be resumed from a
      state, and the mechanisms that the configuration lets through. */
  datatype Config = Config(f: SF.Store, lib: Cram.Library, digesters: seq<string>, stateful: seq<string>, permitted: string -> bool)

  /** MD5 is always available. */
  function HashTypes(c: Config, requireState: bool): seq<string> {
    var types := if requireState then c.stateful else c.digesters;
    if "MD5" in types then types else types + ["MD5"]
  }

  predicate HasPlain(c: Config, selector: string) {
    SF.ClientSecret(c.f, "plain", selector).Valid()
  }

  function CramMechanisms(c: Config, selector: string, types: seq<string>): seq<string> {
    if types == [] then []
    else
      var rest := CramMechanisms(c, selector, types[1..]);
      if HasPlain(c, selector) || SF.ClientSecret(c.f, types[0], selector).Valid() then ["CRAM-" + types[0]] + rest else rest
  }

  /** The mechanisms that the secrets under a selector allow. */
  function OurMechanisms(c: Config, selector: string): seq<string> {
    CramMechanisms(c, selector, HashTypes(c, !HasPlain(c, selector)))
    + (if SF.ClientSecret(c.f, "oauth", selector).Valid() then ["XOAUTH2"] else [])
    + (if HasPlain(c, selector) then ["PLAIN", "LOGIN"] else [])
  }

  function Matching(ours: seq<string>, permitted: string -> bool, theirs: seq<string>): seq<string> {
    if ours == [] then []
    else
      var rest := Matching(ours[1..], permitted, theirs);
      if permitted(ours[0]) && ours[0] in theirs then [ours[0]] + rest else rest
  }

  lemma {:induction false} CramMechanismsAre(c: Config, selector: string, types: seq<string>)
    ensures forall m :: m in CramMechanisms(c, selector, types) ==> Cram.IsCram(m) && SecretFor(c.f, m, selector).Valid()
  {
    hide SF.ClientSecret;
    if types != [] {
      CramMechanismsAre(c, selector, types[1..]);
      assert ("CRAM-" + types[0])[5..] == types[0];
    }
  }

  lemma {:induction false} MatchingAre(ours: seq<string>, permitted: string -> bool, theirs: seq<string>)
    ensures forall m :: m in Matching(ours, permitted, theirs) <==> m in ours && permitted(m) && m in theirs
  {
    if ours != [] {
      MatchingAre(ours[1..], permitted, theirs);
    }
  }

  /** The mechanisms that are kept stay in order. */
  lemma {:induction false} MatchingInOrder(ours: seq<string>, i: nat, permitted: string -> bool, theirs: seq<string>)
    requires i <= |ours|
    ensures Matching(ours, permitted, theirs) == Matching(ours[..i], permitted, theirs) + Matching(ours[i..], permitted, theirs)
  {
    if i == 0 {
      assert ours[..0] == [] && ours[0..] == ours;
    } else {
      MatchingInOrder(ours[1..], i - 1, permitted, theirs);
      assert ours[1..][i - 1..] == ours[i..] && ours[..i][1..] == ours[1..][..i - 1];
    }
  }

  lemma NothingMatches(permitted: string -> bool, theirs: seq<string>)
    ensures Matching([], permitted, theirs) == []
  {
  }

  lemma MatchingHead(ours: seq<string>, permitted: string -> bool, theirs: seq<string>)
    requires ours != []
    ensures Matching(ours, permitted, theirs) == (if permitted(ours[0]) && ours[0] in theirs then [ours[0]] else [])
      + Matching(ours[1..], permitted, theirs)
  {
  }

  lemma MatchingStep(done: seq<string>, ours: seq<string>, i: nat, permitted: string -> bool, theirs: seq<string>)
    requires i < |ours|
    ensures done + Matching(ours[i..], permitted, theirs)
      == (if permitted(ours[i]) && ours[i] in theirs then done + [ours[i]] else done) + Matching(ours[i + 1..], permitted, theirs)
  {
    hide Matching;
    MatchingHead(ours[i..], permitted, theirs);
    assert ours[i..][1..] == ours[i + 1..];
    var rest := Matching(ours[i + 1..], permitted, theirs);
    assert done + ([ours[i]] + rest) == (done + [ours[i]]) + rest;
  }

  /** Every mechanism that may be chosen is one that the server offers, and there is a secret for it, so
      that no challenge leads to an exception. */
  lemma MechanismsAreUsable(c: Config, theirs: seq<string>, selector: string, m: string, challenge: string)
    requires m in Matching(OurMechanisms(c, selector), c.permitted, theirs)
    ensures m in theirs && c.permitted(m) && SecretFor(c.f, m, selector).Valid()
    ensures ReplyTo(c.f, c.lib, m, challenge, selector).Some?
  {
    hide SF.ClientSecret, HashTypes, CramMechanisms, Cram.Response;
    Cram.NotCram();
    MatchingAre(OurMechanisms(c, selector), c.permitted, theirs);
    CramMechanismsAre(c, selector, HashTypes(c, !HasPlain(c, selector)));
  }

  predicate CanCram(c: Config, selector: string, kind: string) {
    SF.ClientSecret(c.f, "plain", selector).Valid() || SF.ClientSecret(c.f, kind, selector).Valid()
  }

  /** The CRAM mechanisms are those of the hash types, in their order, for which there is a secret. */
  lemma {:induction false} CramMechanismsOf(c: Config, selector: string, types: seq<string>, i: nat)
    requires i <= |types|
    ensures CramMechanisms(c, selector, types)
      == CramMechanisms(c, selector, types[..i]) + CramMechanisms(c, selector, types[i..])
    ensures i < |types| ==>
      CramMechanisms(c, selector, [types[i]]) == if CanCram(c, selector, types[i]) then ["CRAM-" + types[i]] else []
  {
    hide SF.ClientSecret;
    if i == 0 {
      assert types[..0] == [] && types[0..] == types;
    } else {
      CramMechanismsOf(c, selector, types[1..], i - 1);
      assert types[1..][i - 1..] == types[i..] && types[..i][1..] == types[1..][..i - 1];
    }
  }

  /** The mechanisms come best first: those with a challenge, then XOAUTH2, then PLAIN and LOGIN.  With no plain
      secret only the hash types that can be resumed from a masked secret are asked for. */
  lemma OurMechanismsInOrder(c: Config, selector: string)
    ensures var plain := SF.ClientSecret(c.f, "plain", selector).Valid();
      var types := if plain then c.digesters else c.stateful;
      OurMechanisms(c, selector)
        == CramMechanisms(c, selector, if "MD5" in types then types else types + ["MD5"])
           + (if SF.ClientSecret(c.f, "oauth", selector).Valid() then ["XOAUTH2"] else [])
           + (if plain then ["PLAIN", "LOGIN"] else [])
  {
    hide SF.ClientSecret, CramMechanisms;
  }

  /** What is said to each challenge, given a secret for it. */
  lemma Replies(f: SF.Store, lib: Cram.Library, selector: string)
    ensures var secret := SF.ClientSecret(f, "plain", selector); secret.Valid() ==>
      && ReplyTo(f, lib, "PLAIN", "", selector) == Some(Reply("\0" + secret.id + "\0" + secret.secret, true, false, true))
      && ReplyTo(f, lib, "LOGIN", "Username:", selector) == Some(Reply(secret.id, false, false, false))
      && ReplyTo(f, lib, "LOGIN", "Password:", selector) == Some(Reply(secret.secret, true, false, true))
    ensures var secret := SF.ClientSecret(f, "oauth", selector); secret.Valid() ==>
      && ReplyTo(f, lib, "XOAUTH2", "", selector) == Some(Reply(secret.secret, true, false, true))
      && forall info :: info != "" ==> ReplyTo(f, lib, "XOAUTH2", info, selector) == Some(Reply("", false, false, true))
  {
    hide SF.ClientSecret, Cram.Response;
    Cram.NotCram();
    assert "\0" == [NUL];
  }

  /** To a challenge of CRAM or APOP the answer is the response for the secret's identity. */
  lemma ChallengeReplies(f: SF.Store, lib: Cram.Library, kind: string, challenge: string, selector: string)
    ensures var own, plain := SF.ClientSecret(f, kind, selector), SF.ClientSecret(f, "plain", selector);
      var secret := if own.Valid() then own else plain;
      var data := Cram.Response(lib, kind, true, secret, challenge, secret.id);
      secret.Valid() ==> ReplyTo(f, lib, "CRAM-" + kind, challenge, selector) == Some(Reply(data, true, data == "", true))
    ensures var secret := SF.ClientSecret(f, "MD5", selector);
      var data := Cram.Response(lib, "MD5", false, secret, challenge, secret.id);
      secret.Valid() ==> ReplyTo(f, lib, "APOP", challenge, selector) == Some(Reply(data, true, data == "", true))
  {
    hide SF.ClientSecret, Cram.Response;
    Cram.NotCram();
    assert ("CRAM-" + kind)[5..] == kind;
  }

  class SaslClient {
    const config: Config
    var mechanisms: seq<string>
    var id: string

    constructor (c: Config)
      ensures config == c && mechanisms == [] && id == ""
    {
      config, mechanisms, id := c, [], "";
    }

    /** The best mechanism, or the empty string; the others are kept for next(). */
    method ChooseMechanism(theirs: seq<string>, selector: string) returns (m: string)
      modifies this`mechanisms
      ensures mechanisms == Matching(OurMechanisms(config, selector), config.permitted, theirs)
      ensures m == if mechanisms == [] then "" else mechanisms[0]
    {
      hide OurMechanisms, Matching;
      var ours := OurMechanisms(config, selector);
      mechanisms := [];
      var i := 0;
      assert ours[0..] == ours;
      while i < |ours|
        invariant i <= |ours|
        invariant mechanisms + Matching(ours[i..], config.permitted, theirs) == Matching(ours, config.permitted, theirs)
      {
        MatchingStep(mechanisms, ours, i, config.permitted, theirs);
        if config.permitted(ours[i]) && ours[i] in theirs {
          mechanisms := mechanisms + [ours[i]];
        }
        i := i + 1;
      }
      NothingMatches(config.permitted, theirs);
      assert ours[i..] == [] && mechanisms + [] == mechanisms;
      m := if mechanisms == [] then "" else mechanisms[0];
    }

    method Next() returns (more: bool)
      modifies this`mechanisms
      ensures mechanisms == if old(mechanisms) == [] then [] else old(mechanisms)[1..]
      ensures more <==> mechanisms != []
    {
      if mechanisms != [] {
        mechanisms := mechanisms[1..];
      }
      more := mechanisms != [];
    }

    /** The last reply records whose secret it used. */
    method Respond(mechanism: string, challenge: string, selector: string) returns (reply: Option<Reply>)
      modifies this`id
      ensures reply == ReplyTo(config.f, config.lib, mechanism, challenge, selector)
      ensures id == if reply.Some? && reply.value.final then SecretFor(config.f, mechanism, selector).id else old(id)
    {
      reply := ReplyTo(config.f, config.lib, mechanism, challenge, selector);
      if reply.Some? && reply.value.final {
        id := SecretFor(config.f, mechanism, selector).id;
      }
    }
  }
}
