/** The server's side of authentication (src/gauth/gsaslserverbasic.cpp). */
module SaslServer {
  import opened Wrappers
  import opened Str
  import Cram
  import SF = SecretsFile

  const NUL := '\0'
  const LOGIN_CHALLENGE_1 := "Username:"
  const LOGIN_CHALLENGE_2 := "Password:"

  // ----- one exchange

  datatype State = State(first: bool, mechanism: string, challenge: string, authenticated: bool, id: string, trustee: string)

  const RESET := State(true, "", "", false, "", "")

  /** The state after init(), with the text of a challenge in case one is wanted. */
  function Initialised(mechanisms: seq<string>, given: string, challenge: string): State {
    var mechanism := Upper(given);
    if mechanism == "" || mechanism !in mechanisms then RESET
    else if mechanism == "APOP" || Cram.IsCram(mechanism) then RESET.(mechanism := mechanism, challenge := challenge)
    else RESET.(mechanism := mechanism)
  }

  function InitialChallenge(s: State): string {
    if s.mechanism == "PLAIN" then ""
    else if s.mechanism == "LOGIN" then LOGIN_CHALLENGE_1
    else s.challenge
  }

  /** The secret that the server uses for an identity: one for the mechanism if it can, or a plain one. */
  function SecretFor(f: SF.Store, mechanism: string, id: string): SF.Secret {
    var secret := if Cram.IsCram(mechanism) then SF.ServerSecret(f, mechanism[5..], id) else SF.NO_SECRET;
    if secret.Valid() then secret else SF.ServerSecret(f, "plain", id)
  }

  predicate Validated(lib: Cram.Library, s: State, secret: SF.Secret, response: string) {
    if s.mechanism == "APOP" then Cram.Validate(lib, "MD5", false, secret, s.challenge, response)
    else Cram.IsCram(s.mechanism) && Cram.Validate(lib, s.mechanism[5..], true, secret, s.challenge, response)
  }

  /** The outcome of apply(). */
  datatype Step = Step(state: State, done: bool, next: string)

  function Applied(f: SF.Store, lib: Cram.Library, s: State, response: string): Step {
    if Cram.IsCram(s.mechanism) || s.mechanism == "APOP" then
      var id := Cram.Id(response);
      var secret := if id == "" then SF.NO_SECRET else SecretFor(f, s.mechanism, id);
      if !secret.Valid() then Step(s.(first := false, authenticated := false), true, "")
      else Step(s.(first := false, id := id, authenticated := Validated(lib, s, secret, response)), true, "")
    else if s.mechanism == "PLAIN" then
      var fields := TailFrom(response, NUL);
      var id, password := Head(fields, NUL, ""), TailFrom(fields, NUL);
      var secret := SF.ServerSecret(f, "plain", id);
      Step(s.(first := false, id := id,
              authenticated := secret.Valid() && id != "" && password != "" && password == secret.secret), true, "")
    else if s.first then
      Step(s.(first := false, id := response), false, if response != "" then LOGIN_CHALLENGE_2 else "")
    else
      var secret := SF.ServerSecret(f, "plain", s.id);
      Step(s.(authenticated := secret.Valid() && response != "" && response == secret.secret), true, "")
  }

  /** The first trusted range, if any. */
  function Trustee(f: SF.Store, ranges: seq<string>): string {
    if ranges == [] then ""
    else
      match SF.ServerTrust(f, ranges[0])
      case Some((trustee, _)) => if trustee != "" then trustee else Trustee(f, ranges[1..])
      case None => Trustee(f, ranges[1..])
  }

  function TrusteeSet(s: State, trustee: string): State {
    if trustee == "" then s else s.(trustee := trustee)
  }

  function Id(s: State): string {
    if s.authenticated then s.id else s.trustee
  }

  // ----- whole runs

  datatype Event =
    | Reset
    | Init(secure: bool, mechanism: string, challenge: string)
    | Apply(response: string)
    | Trusted(ranges: seq<string>)

  /** What stays the same during a run. */
  datatype Config = Config(f: SF.Store, lib: Cram.Library, secure: seq<string>, insecure: seq<string>)

  function Next(c: Config, s: State, e: Event): State {
    match e
    case Reset => RESET
    case Init(secure, mechanism, challenge) => Initialised(if secure then c.secure else c.insecure, mechanism, challenge)
    case Apply(response) => Applied(c.f, c.lib, s, response).state
    case Trusted(ranges) => TrusteeSet(s, Trustee(c.f, ranges))
  }

  function Run(c: Config, events: seq<Event>): State {
    if events == [] then RESET else Next(c, Run(c, events[..|events| - 1]), events[|events| - 1])
  }

  /** A response that proves an identity: a valid secret is held for it, and the response is what the
      mechanism asks of someone who has that secret. */
  ghost predicate Proves(c: Config, s: State, response: string, id: string) {
    var cram := "CRAM-" <= s.mechanism;
    var secret := if cram && SF.ServerSecret(c.f, s.mechanism[5..], id).Valid()
                  then SF.ServerSecret(c.f, s.mechanism[5..], id) else SF.ServerSecret(c.f, "plain", id);
    && id != "" && secret.Valid()
    && if cram then
         IsCramResponse(c.lib, s.mechanism[5..], true, secret, s.challenge, response, id)
       else if s.mechanism == "APOP" then
         IsCramResponse(c.lib, "MD5", false, secret, s.challenge, response, id)
       else if s.mechanism == "PLAIN" then
         IsPlainResponse(response, id, secret.secret)
       else
         !s.first && s.id == id && response == secret.secret
  }

  /** The response of section 2 of RFC 2195: the identity, a space, and the digest of the challenge in
      hexadecimal, which cannot be empty. */
  ghost predicate IsCramResponse(lib: Cram.Library, kind: string, asHmac: bool, secret: SF.Secret, challenge: string,
                                 response: string, id: string)
  {
    exists x :: x != "" && Cram.ResponseImp(lib, kind, asHmac, secret, challenge) == Some(x) && response == id + [' '] + x
  }

  /** The server takes a response for an identity exactly when it is the one of the standard. */
  lemma CramFields(lib: Cram.Library, kind: string, asHmac: bool, secret: SF.Secret, challenge: string, response: string,
                   id: string)
    requires id != ""
    ensures Cram.Id(response) == id && Cram.Validate(lib, kind, asHmac, secret, challenge, response)
      <==> IsCramResponse(lib, kind, asHmac, secret, challenge, response, id)
  {
    hide Cram.ResponseImp, FindLast;
    if Cram.Id(response) == id && Cram.Validate(lib, kind, asHmac, secret, challenge, response) {
      var pos := FindLast(response, ' ').value;
      Rejoin(response, pos);
      assert response == id + [' '] + Tail(response, pos);
    }
    if IsCramResponse(lib, kind, asHmac, secret, challenge, response, id) {
      var x :| x != "" && Cram.ResponseImp(lib, kind, asHmac, secret, challenge) == Some(x) && response == id + [' '] + x;
      Cram.ResponseHasNoSpace(lib, kind, asHmac, secret, challenge);
      Cram.SplitResponse(id, x);
    }
  }

  /** The message of section 2 of RFC 4616. */
  ghost predicate IsPlainResponse(response: string, id: string, password: string) {
    '\0' !in id && exists authzid :: '\0' !in authzid && response == PlainResponse(authzid, id, password)
  }

  function PlainResponse(authzid: string, id: string, password: string): string {
    authzid + "\0" + (id + "\0" + password)
  }

  lemma SplitAt(a: string, c: char, b: string)
    requires c !in a
    ensures FindFirstOf(a + [c] + b, {c}) == |a| && TailFrom(a + [c] + b, c) == b && Head(a + [c] + b, c, "") == a
  {
    var s := a + [c] + b;
    assert forall i :: 0 <= i < |a| ==> s[i] == a[i];
    FindAtStart(s, {c}, |a|);
    assert s[|a| + 1..] == b && s[..|a|] == a;
  }

  lemma JoinAt(s: string, c: char)
    requires FindFirstOf(s, {c}) < |s|
    ensures var i := FindFirstOf(s, {c}); c !in s[..i] && s == s[..i] + [c] + TailFrom(s, c)
  {
    FirstOf(s, {c});
    hide FindFirstOf;
    Rejoin(s, FindFirstOf(s, {c}));
  }

  lemma Rejoin(s: string, i: nat)
    requires i < |s|
    ensures s == s[..i] + [s[i]] + Tail(s, i)
  {
  }

  /** The fields of a PLAIN response are found exactly when it has the form of the standard. */
  lemma PlainFields(response: string, id: string, password: string)
    requires id != "" && password != ""
    ensures var fields := TailFrom(response, NUL);
      (Head(fields, NUL, "") == id && TailFrom(fields, NUL) == password) <==> IsPlainResponse(response, id, password)
  {
    var fields := TailFrom(response, NUL);
    if Head(fields, NUL, "") == id && TailFrom(fields, NUL) == password {
      JoinAt(response, NUL);
      JoinAt(fields, NUL);
      assert response == PlainResponse(response[..FindFirstOf(response, {NUL})], id, password);
    }
    if IsPlainResponse(response, id, password) {
      var authzid :| NUL !in authzid && response == PlainResponse(authzid, id, password);
      SplitAt(authzid, NUL, id + [NUL] + password);
      SplitAt(id, NUL, password);
    }
  }

  /** A step authenticates exactly those who prove their identity. */
  lemma AppliedProves(c: Config, s: State, response: string)
    requires s.first ==> !s.authenticated
    ensures var t := Applied(c.f, c.lib, s, response).state;
      && (t.authenticated ==> Proves(c, s, response, t.id))
      && (forall id :: Proves(c, s, response, id) ==> t.authenticated && t.id == id)
  {
    hide Cram.Id, SF.ServerKey, Cram.Validate, IsPlainResponse, IsCramResponse, Head, TailFrom;
    var t := Applied(c.f, c.lib, s, response).state;
    Cram.NotCram();
    if Cram.IsCram(s.mechanism) || s.mechanism == "APOP" {
      forall kind, asHmac, secret, id | id != ""
        ensures Cram.Id(response) == id && Cram.Validate(c.lib, kind, asHmac, secret, s.challenge, response)
          <==> IsCramResponse(c.lib, kind, asHmac, secret, s.challenge, response, id)
      {
        CramFields(c.lib, kind, asHmac, secret, s.challenge, response, id);
      }
    }
    if s.mechanism == "PLAIN" {
      var fields := TailFrom(response, NUL);
      forall id, password | id != "" && password != ""
        ensures (Head(fields, NUL, "") == id && TailFrom(fields, NUL) == password) <==> IsPlainResponse(response, id, password)
      {
        PlainFields(response, id, password);
      }
    }
  }

  lemma {:induction false} FirstIsNot(c: Config, events: seq<Event>)
    ensures Run(c, events).first ==> !Run(c, events).authenticated
  {
    hide Cram.Id, Cram.Validate, SF.ServerSecret, Head, TailFrom, Upper, Trustee;
    if events != [] {
      FirstIsNot(c, events[..|events| - 1]);
    }
  }

  ghost predicate ProvedAt(c: Config, events: seq<Event>, i: nat, id: string) {
    && i < |events| && events[i].Apply? && Proves(c, Run(c, events[..i]), events[i].response, id)
    && forall j :: i < j < |events| ==> events[j].Trusted?
  }

  /** Over every run the server is authenticated exactly when some response proved the identity that it
      now has, and nothing but questions of trust came after it. */
  lemma {:induction false} AuthenticatedIffProved(c: Config, events: seq<Event>)
    ensures Run(c, events).authenticated <==> exists i :: ProvedAt(c, events, i, Run(c, events).id)
  {
    hide Proves, Applied, Upper, Trustee;
    if events != [] {
      var last := |events| - 1;
      var before := events[..last];
      AuthenticatedIffProved(c, before);
      var e, s, t := events[last], Run(c, before), Run(c, events);
      match e
      case Apply(response) =>
        FirstIsNot(c, before);
        AppliedProves(c, s, response);
        assert t.authenticated ==> ProvedAt(c, events, last, t.id);
      case Trusted(_) =>
        forall i: nat ensures ProvedAt(c, before, i, s.id) <==> ProvedAt(c, events, i, t.id) {
          assert i < last ==> before[..i] == events[..i];
        }
      case _ =>
    }
  }

  /** The rest of a step: LOGIN alone takes a second response, for which there is a prompt, and the mechanism,
      the challenge and the trustee stay as they are. */
  lemma AppliedRest(c: Config, s: State, response: string)
    ensures var step := Applied(c.f, c.lib, s, response);
      && (step.done <==> "CRAM-" <= s.mechanism || s.mechanism == "APOP" || s.mechanism == "PLAIN" || !s.first)
      && (step.next == if !step.done && response != "" then "Password:" else "")
      && (!step.done ==> step.state.id == response)
      && !step.state.first && step.state.mechanism == s.mechanism && step.state.challenge == s.challenge
      && step.state.trustee == s.trustee
  {
    hide Cram.Id, Cram.Validate, SF.ServerSecret, Head, TailFrom;
  }

  /** The initial challenge after init(): a prompt for LOGIN, nothing for PLAIN, and the text for the mechanisms
      with a challenge. */
  lemma InitialChallenges(mechanisms: seq<string>, given: string, text: string)
    requires Upper(given) in mechanisms
    ensures Upper(given) == "LOGIN" ==> InitialChallenge(Initialised(mechanisms, given, text)) == "Username:"
    ensures Upper(given) == "PLAIN" ==> InitialChallenge(Initialised(mechanisms, given, text)) == ""
    ensures Upper(given) == "APOP" || "CRAM-" <= Upper(given) ==> InitialChallenge(Initialised(mechanisms, given, text)) == text
  {
    hide Upper;
    Cram.NotCram();
  }

  // ----- which mechanism, over whole runs

  /** The Init at i named the mechanism, in any case, which is on the list for that kind of connection, and
      nothing but responses and questions of trust came after it. */
  ghost predicate ChosenAt(c: Config, events: seq<Event>, i: nat, mechanism: string) {
    && i < |events| && events[i].Init? && mechanism != "" && mechanism == Upper(events[i].mechanism)
    && (events[i].secure ==> mechanism in c.secure) && (!events[i].secure ==> mechanism in c.insecure)
    && forall j :: i < j < |events| ==> events[j].Apply? || events[j].Trusted?
  }

  /** Over every run the server has a mechanism exactly when the last Init named it from the right list. */
  lemma {:induction false} MechanismIffChosen(c: Config, events: seq<Event>, mechanism: string)
    requires mechanism != ""
    ensures Run(c, events).mechanism == mechanism <==> exists i :: ChosenAt(c, events, i, mechanism)
  {
    hide Upper, Trustee, Applied;
    if events != [] {
      var last := |events| - 1;
      var before := events[..last];
      MechanismIffChosen(c, before, mechanism);
      match events[last]
      case Apply(response) =>
        AppliedRest(c, Run(c, before), response);
        SameChoice(c, before, events, mechanism);
      case Trusted(_) =>
        SameChoice(c, before, events, mechanism);
      case Init(_, _, _) =>
        assert Run(c, events).mechanism == mechanism <==> ChosenAt(c, events, last, mechanism);
      case Reset =>
    }
  }

  lemma SameChoice(c: Config, before: seq<Event>, events: seq<Event>, mechanism: string)
    requires events != [] && (events[|events| - 1].Apply? || events[|events| - 1].Trusted?)
    requires before == events[..|events| - 1]
    ensures forall i :: ChosenAt(c, before, i, mechanism) <==> ChosenAt(c, events, i, mechanism)
  {
    hide Upper;
  }

  /** On insecure connections nobody is authenticated by a mechanism that is not on the list for them. */
  lemma InsecureMechanism(c: Config, events: seq<Event>)
    requires forall i :: 0 <= i < |events| && events[i].Init? ==> !events[i].secure
    ensures Run(c, events).mechanism == "" || Run(c, events).mechanism in c.insecure
  {
    hide Upper, Run;
    if Run(c, events).mechanism != "" {
      MechanismIffChosen(c, events, Run(c, events).mechanism);
    }
  }

  /** Without any mechanism the responses are taken as those of LOGIN: it is left to the caller to ask for an
      accepted init() first. */
  lemma LoginWithoutInit(c: Config, id: string, password: string)
    ensures var secret := SF.ServerSecret(c.f, "plain", id);
      Run(c, [Apply(id), Apply(password)]).authenticated <==> secret.Valid() && password == secret.secret
  {
    hide SF.ServerSecret;
    var one, two := [Apply(id)], [Apply(id), Apply(password)];
    assert two[..1] == one && one[..0] == [];
    assert Run(c, one) == Next(c, RESET, Apply(id)) && Run(c, two) == Next(c, Run(c, one), Apply(password));
  }

  // ----- who is trusted, over whole runs

  /** The first of the ranges that is trusted. */
  ghost predicate IsTrustee(f: SF.Store, ranges: seq<string>, k: nat, trustee: string) {
    && k < |ranges| && HasTrustee(f, ranges[k]) && trustee == SF.ServerTrust(f, ranges[k]).value.0
    && forall j :: 0 <= j < k ==> !HasTrustee(f, ranges[j])
  }

  predicate HasTrustee(f: SF.Store, range: string) {
    SF.ServerTrust(f, range).Some? && SF.ServerTrust(f, range).value.0 != ""
  }

  lemma {:induction false} TrusteeIsFirst(f: SF.Store, ranges: seq<string>)
    ensures forall k, t :: IsTrustee(f, ranges, k, t) ==> Trustee(f, ranges) == t
    ensures Trustee(f, ranges) == "" <==> forall k :: 0 <= k < |ranges| ==> !HasTrustee(f, ranges[k])
    ensures Trustee(f, ranges) != "" ==> exists k :: IsTrustee(f, ranges, k, Trustee(f, ranges))
  {
    hide SF.ServerTrust;
    if ranges != [] {
      var rest := ranges[1..];
      TrusteeIsFirst(f, rest);
      if HasTrustee(f, ranges[0]) {
        assert IsTrustee(f, ranges, 0, Trustee(f, ranges));
      } else {
        assert forall k :: 0 <= k < |rest| ==> rest[k] == ranges[k + 1];
        forall k: nat, t | IsTrustee(f, ranges, k, t) ensures Trustee(f, ranges) == t {
          assert IsTrustee(f, rest, k - 1, t);
        }
        if Trustee(f, rest) != "" {
          var k: nat :| IsTrustee(f, rest, k, Trustee(f, rest));
          assert IsTrustee(f, ranges, k + 1, Trustee(f, rest));
        }
      }
    }
  }

  /** The question of trust at i has an answer, and nothing after it starts again or finds another. */
  ghost predicate TrustedAt(c: Config, events: seq<Event>, i: nat, trustee: string) {
    && i < |events| && events[i].Trusted? && (exists k :: IsTrustee(c.f, events[i].ranges, k, trustee))
    && forall j :: i < j < |events| ==>
      events[j].Apply? || (events[j].Trusted? && forall r :: r in events[j].ranges ==> !HasTrustee(c.f, r))
  }

  /** Over every run: whoever is authenticated has proved the identity that is reported, anyone else is
      reported as the trustee found last, if any. */
  lemma IdentityOfRun(c: Config, events: seq<Event>)
    ensures Run(c, events).authenticated ==> exists i :: ProvedAt(c, events, i, Id(Run(c, events)))
    ensures !Run(c, events).authenticated && Id(Run(c, events)) != "" ==> exists i :: TrustedAt(c, events, i, Id(Run(c, events)))
    ensures !Run(c, events).authenticated && Id(Run(c, events)) == "" ==> forall i, t :: !TrustedAt(c, events, i, t)
  {
    hide ProvedAt, TrustedAt, Run;
    var s := Run(c, events);
    AuthenticatedIffProved(c, events);
    TrusteeOfRun(c, events);
    if s.authenticated {
      var i :| ProvedAt(c, events, i, s.id);
      assert Id(s) == s.id;
    } else {
      assert Id(s) == s.trustee;
    }
  }

  lemma {:induction false} TrusteeOfRun(c: Config, events: seq<Event>)
    ensures Run(c, events).trustee != "" ==> exists i :: TrustedAt(c, events, i, Run(c, events).trustee)
    ensures Run(c, events).trustee == "" ==> forall i, t :: !TrustedAt(c, events, i, t)
  {
    hide Applied, Upper, Trustee, IsTrustee, HasTrustee;
    if events != [] {
      var last := |events| - 1;
      var before := events[..last];
      TrusteeOfRun(c, before);
      match events[last]
      case Apply(response) =>
        AppliedRest(c, Run(c, before), response);
        SameTrust(c, before, events);
      case Trusted(ranges) =>
        TrusteeIsFirst(c.f, ranges);
        if Trustee(c.f, ranges) == "" {
          NoneTrusted(c.f, ranges);
          SameTrust(c, before, events);
        } else {
          assert TrustedAt(c, events, last, Trustee(c.f, ranges));
        }
      case Init(_, _, _) =>
        assert forall i, t :: !TrustedAt(c, events, i, t);
      case Reset =>
        assert forall i, t :: !TrustedAt(c, events, i, t);
    }
  }

  lemma NoneTrusted(f: SF.Store, ranges: seq<string>)
    requires forall k :: 0 <= k < |ranges| ==> !HasTrustee(f, ranges[k])
    ensures forall r :: r in ranges ==> !HasTrustee(f, r)
    ensures forall k, t :: !IsTrustee(f, ranges, k, t)
  {
    hide HasTrustee;
  }

  lemma SameTrust(c: Config, before: seq<Event>, events: seq<Event>)
    requires events != [] && before == events[..|events| - 1]
    requires var e := events[|events| - 1];
      || e.Apply?
      || (e.Trusted? && (forall r :: r in e.ranges ==> !HasTrustee(c.f, r)) && forall k, t :: !IsTrustee(c.f, e.ranges, k, t))
    ensures forall i, t :: TrustedAt(c, before, i, t) <==> TrustedAt(c, events, i, t)
  {
    hide IsTrustee, HasTrustee;
  }

  // ----- the object

  class SaslServer {
    const f: SF.Store
    const lib: Cram.Library
    const secure: seq<string>
    const insecure: seq<string>
    var first: bool
    var mechanism: string
    var challenge: string
    var authenticated: bool
    var id: string
    var trustee: string

    constructor (c: Config)
      ensures Value() == RESET && Constants() == c
    {
      f, lib, secure, insecure := c.f, c.lib, c.secure, c.insecure;
      first, mechanism, challenge, authenticated, id, trustee := true, "", "", false, "", "";
    }

    function Constants(): Config {
      Config(f, lib, secure, insecure)
    }

    function Value(): State
      reads this
    {
      State(first, mechanism, challenge, authenticated, id, trustee)
    }

    method ResetAll()
      modifies this
      ensures Value() == State(true, "", "", false, "", "")
    {
      first := true;
      authenticated := false;
      id, trustee, challenge, mechanism := "", "", "", "";
    }

    /** False if the mechanism is not on the list; the object is unauthenticated either way. */
    method Initialise(isSecure: bool, given: string, text: string) returns (ok: bool)
      modifies this
      ensures Value() == Next(Constants(), old(Value()), Init(isSecure, given, text))
      ensures !authenticated && (ok <==> mechanism != "")
    {
      ResetAll();
      var wanted := Upper(given);
      var mechanisms := if isSecure then secure else insecure;
      if wanted == "" || wanted !in mechanisms {
        ok := false;
      } else if wanted == "APOP" || Cram.IsCram(wanted) {
        mechanism, challenge := wanted, text;
        ok := true;
      } else {
        mechanism := wanted;
        ok := true;
      }
    }

    method ApplyResponse(response: string) returns (done: bool, next: string)
      modifies this
      ensures Step(Value(), done, next) == Applied(f, lib, old(Value()), response)
    {
      hide Cram.Id, Validated, SF.ServerKey, SF.ServerSecret, Head, TailFrom;
      var was := Value();
      var isFirst := first;
      first := false;
      done, next := false, "";
      var secret := SF.NO_SECRET;
      if Cram.IsCram(mechanism) || mechanism == "APOP" {
        var name := Cram.Id(response);
        if name != "" {
          if mechanism == "APOP" {
            secret := SF.ServerSecret(f, "plain", name);
          } else {
            secret := SF.ServerSecret(f, mechanism[5..], name);
            if !secret.Valid() {
              secret := SF.ServerSecret(f, "plain", name);
            }
          }
        }
        if !secret.Valid() {
          authenticated := false;
        } else {
          id := name;
          authenticated := Validated(lib, was, secret, response);
        }
        done := true;
      } else if mechanism == "PLAIN" {
        var fields := TailFrom(response, NUL);
        var name, password := Head(fields, NUL, ""), TailFrom(fields, NUL);
        secret := SF.ServerSecret(f, "plain", name);
        authenticated := secret.Valid() && name != "" && password != "" && password == secret.secret;
        id := name;
        done := true;
      } else if isFirst {
        id := response;
        if id != "" {
          next := LOGIN_CHALLENGE_2;
        }
      } else {
        secret := SF.ServerSecret(f, "plain", id);
        authenticated := secret.Valid() && response != "" && response == secret.secret;
        done := true;
      }
    }

    /** Whether any of the ranges is trusted; if so the trustee becomes the identity. */
    method TrustedAny(ranges: seq<string>) returns (ok: bool)
      modifies this`trustee
      ensures Value() == Next(Constants(), old(Value()), Trusted(ranges)) && ok == (Trustee(f, ranges) != "")
    {
      var i := 0;
      ok := false;
      assert ranges[0..] == ranges;
      while i < |ranges| && !ok
        invariant i <= |ranges|
        invariant if ok then Trustee(f, ranges) == trustee != "" else trustee == old(trustee) && Trustee(f, ranges) == Trustee(f, ranges[i..])
      {
        var found := SF.ServerTrust(f, ranges[i]);
        assert ranges[i..][1..] == ranges[i + 1..];
        if found.Some? && found.value.0 != "" {
          trustee := found.value.0;
          ok := true;
        }
        i := i + 1;
      }
    }
  }
}
