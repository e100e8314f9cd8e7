/** Looking up mail exchangers with several nameservers (src/gfilters/gmxlookup.cpp). */
module MxLookup {
  import opened Wrappers

  // ----- answers

  /** An answer of a DNS message; an address is none if it has no port. */
  datatype Answer =
    | MxAnswer(pr: nat, name: string)
    | CnameAnswer(cname: string)
    | OtherAnswer(address: Option<string>)

  /** A DNS message as far as it is used here. */
  datatype Message = Message(valid: bool, qr: bool, id: nat, rcode: nat, aa: bool, answers: seq<Answer>)

  datatype Outcome = Error(reason: string) | Fatal(reason: string) | Mx(name: string) | Cname(name: string) | Ip(address: string)

  /** The mail exchanger that the loop over the answers ends with. */
  function BestMx(answers: seq<Answer>): Option<Answer> {
    if answers == [] then None
    else
      var best, a := BestMx(answers[..|answers| - 1]), answers[|answers| - 1];
      if a.MxAnswer? && a.name != "" && (best == None || !best.value.MxAnswer? || a.pr < best.value.pr) then Some(a) else best
  }

  function LastCname(answers: seq<Answer>): string {
    if answers == [] then ""
    else
      var a := answers[|answers| - 1];
      if a.CnameAnswer? then a.cname else LastCname(answers[..|answers| - 1])
  }

  function FirstAddress(answers: seq<Answer>): Option<string> {
    if answers == [] then None
    else
      var first, a := FirstAddress(answers[..|answers| - 1]), answers[|answers| - 1];
      if first.Some? then first else if a.OtherAnswer? then a.address else None
  }

  predicate IsNamedMx(a: Answer) {
    a.MxAnswer? && a.name != ""
  }

  /** A named mail exchanger of least preference, and the earliest of those. */
  ghost predicate IsBest(answers: seq<Answer>, i: nat) {
    && i < |answers| && IsNamedMx(answers[i])
    && (forall j :: 0 <= j < |answers| && IsNamedMx(answers[j]) ==> answers[i].pr <= answers[j].pr)
    && (forall j :: 0 <= j < i && IsNamedMx(answers[j]) ==> answers[i].pr < answers[j].pr)
  }

  lemma {:induction false} BestMxIsBest(answers: seq<Answer>) returns (i: nat)
    ensures if BestMx(answers).Some? then IsBest(answers, i) && BestMx(answers) == Some(answers[i])
            else forall j :: 0 <= j < |answers| ==> !IsNamedMx(answers[j])
  {
    i := 0;
    if answers != [] {
      var last := |answers| - 1;
      i := BestMxIsBest(answers[..last]);
      if BestMx(answers) != BestMx(answers[..last]) {
        i := last;
      }
    }
  }

  function ParseOf(m: Message): Outcome {
    if m.rcode == 3 && m.aa then Fatal("rcode nxdomain")
    else if m.rcode != 0 then Error("rcode")
    else if m.answers == [] then Error("no answer section")
    else if LastCname(m.answers) != "" then Cname(LastCname(m.answers))
    else if FirstAddress(m.answers).Some? then Ip(FirstAddress(m.answers).value)
    else
      match BestMx(m.answers)
      case Some(MxAnswer(_, name)) => Mx(name)
      case _ => Error("invalid response")
  }

  method Parse(m: Message) returns (r: Outcome)
    ensures r == ParseOf(m)
  {
    if m.rcode == 3 && m.aa {
      return Fatal("rcode nxdomain");
    }
    if m.rcode != 0 {
      return Error("rcode");
    } else if m.answers == [] {
      return Error("no answer section");
    }
    var address: Option<string> := None;
    var cname, mx, pr := "", "", 0;
    for i := 0 to |m.answers|
      invariant address == FirstAddress(m.answers[..i]) && cname == LastCname(m.answers[..i])
      invariant BestMx(m.answers[..i]) == if mx == "" then None else Some(MxAnswer(pr, mx))
    {
      assert m.answers[..i + 1][..i] == m.answers[..i];
      match m.answers[i]
      case MxAnswer(p, name) =>
        if name != "" && (mx == "" || p < pr) {
          pr, mx := p, name;
        }
      case CnameAnswer(name) =>
        cname := name;
      case OtherAnswer(a) =>
        if address == None && a != None {
          address := a;
        }
    }
    assert m.answers[..|m.answers|] == m.answers;
    if cname != "" {
      r := Cname(cname);
    } else if address != None {
      r := Ip(address.value);
    } else if mx != "" {
      r := Mx(mx);
    } else {
      r := Error("invalid response");
    }
  }

  /** A host is chosen only from an answer of least preference, the earliest on ties. */
  lemma ParsePicksLeast(m: Message) returns (i: nat)
    ensures ParseOf(m).Mx? ==> IsBest(m.answers, i) && ParseOf(m).name == m.answers[i].name
  {
    i := BestMxIsBest(m.answers);
  }

  /** The alias that counts is the last one, even if it is empty. */
  predicate IsLastCname(answers: seq<Answer>, i: nat) {
    i < |answers| && answers[i].CnameAnswer? && forall j :: i < j < |answers| ==> !answers[j].CnameAnswer?
  }

  predicate IsAddress(a: Answer) {
    a.OtherAnswer? && a.address.Some?
  }

  predicate IsFirstAddress(answers: seq<Answer>, i: nat) {
    i < |answers| && IsAddress(answers[i]) && forall j :: 0 <= j < i ==> !IsAddress(answers[j])
  }

  lemma {:induction false} LastCnameIs(answers: seq<Answer>)
    ensures forall i: nat :: IsLastCname(answers, i) ==> LastCname(answers) == answers[i].cname
    ensures (forall i: nat :: !IsLastCname(answers, i)) ==> LastCname(answers) == ""
  {
    if answers != [] {
      var before := answers[..|answers| - 1];
      LastCnameIs(before);
      if answers[|answers| - 1].CnameAnswer? {
        assert IsLastCname(answers, |answers| - 1);
      } else {
        forall i: nat ensures IsLastCname(before, i) <==> IsLastCname(answers, i) {
          assert i < |before| ==> before[i] == answers[i];
        }
      }
    }
  }

  lemma {:induction false} FirstAddressIs(answers: seq<Answer>)
    ensures forall i: nat :: IsFirstAddress(answers, i) ==> FirstAddress(answers) == answers[i].address
    ensures FirstAddress(answers).Some? ==> exists i :: IsFirstAddress(answers, i)
  {
    if answers != [] {
      var last := |answers| - 1;
      var before := answers[..last];
      FirstAddressIs(before);
      if FirstAddress(before).Some? {
        var i: nat :| IsFirstAddress(before, i);
        assert IsFirstAddress(answers, i);
      } else {
        assert forall j :: 0 <= j < last && IsAddress(answers[j]) ==> exists i :: IsFirstAddress(before, i) by {
          NoneIsFirst(before);
        }
        if IsAddress(answers[last]) {
          assert IsFirstAddress(answers, last);
        }
      }
    }
  }

  lemma {:induction false} NoneIsFirst(answers: seq<Answer>)
    ensures (exists j :: 0 <= j < |answers| && IsAddress(answers[j])) ==> exists i :: IsFirstAddress(answers, i)
  {
    if answers != [] {
      var last := |answers| - 1;
      NoneIsFirst(answers[..last]);
      if i: nat :| IsFirstAddress(answers[..last], i) {
        assert IsFirstAddress(answers, i);
      } else if IsAddress(answers[last]) {
        assert IsFirstAddress(answers, last);
      }
    }
  }

  ghost predicate NoAlias(answers: seq<Answer>) {
    forall i: nat :: IsLastCname(answers, i) ==> answers[i].cname == ""
  }

  ghost predicate NoAddress(answers: seq<Answer>) {
    forall i :: 0 <= i < |answers| ==> !IsAddress(answers[i])
  }

  ghost predicate NoMx(answers: seq<Answer>) {
    forall i :: 0 <= i < |answers| ==> !IsNamedMx(answers[i])
  }

  /** What a reply comes to: an error by its code; or else the last alias, the first address, or the best
      mail exchanger, in this order. */
  lemma ParseMeans(m: Message, i: nat)
    ensures m.rcode == 3 && m.aa ==> ParseOf(m) == Fatal("rcode nxdomain")
    ensures m.rcode != 0 && !(m.rcode == 3 && m.aa) ==> ParseOf(m) == Error("rcode")
    ensures m.rcode == 0 && m.answers == [] ==> ParseOf(m) == Error("no answer section")
    ensures m.rcode == 0 && IsLastCname(m.answers, i) && m.answers[i].cname != "" ==> ParseOf(m) == Cname(m.answers[i].cname)
    ensures m.rcode == 0 && NoAlias(m.answers) && IsFirstAddress(m.answers, i) ==> ParseOf(m) == Ip(m.answers[i].address.value)
    ensures m.rcode == 0 && NoAlias(m.answers) && NoAddress(m.answers) && IsBest(m.answers, i) ==>
      ParseOf(m) == Mx(m.answers[i].name)
    ensures m.rcode == 0 && m.answers != [] && NoAlias(m.answers) && NoAddress(m.answers) && NoMx(m.answers) ==>
      ParseOf(m) == Error("invalid response")
  {
    hide LastCname, FirstAddress, BestMx;
    LastCnameIs(m.answers);
    FirstAddressIs(m.answers);
    var k := BestMxIsBest(m.answers);
    if IsBest(m.answers, i) {
      assert IsNamedMx(m.answers[i]);
      BestIsUnique(m.answers, i, k);
    }
  }

  lemma BestIsUnique(answers: seq<Answer>, i: nat, k: nat)
    requires IsBest(answers, i)
    ensures IsBest(answers, k) ==> i == k
  {
  }

  // ----- the state

  datatype Timer = Off | Immediate | NsTimeout | RestartTimeout

  datatype Query = MxQuery(ns: nat, name: string) | HostQuery(ns: nat, name: string)

  /** The answer or the error that is reported for a message. */
  datatype Signal = Signal(message: string, answer: string, error: string)

  /** A nameserver's address is none when it is disabled. */
  datatype State = State(
    message: string,
    question: string,
    error: string,
    nsIndex: nat,
    nsFailures: nat,
    nameservers: seq<Option<string>>,
    listening: bool,
    timer: Timer,
    sent: seq<Query>,
    signals: seq<Signal>)

  datatype Event =
    | Start(message: string, forwardTo: string)
    | Datagram(response: Message)
    | SocketError(reason: string)
    | Timeout
    | Cancel

  function Asked(s: State, q: Query): State
    requires q.ns < |s.nameservers|
  {
    if s.nameservers[q.ns] != None then s.(sent := s.sent + [q]) else s
  }

  function TimerFor(s: State): Timer {
    if s.nsIndex + 1 == |s.nameservers| then RestartTimeout else NsTimeout
  }

  function Failed(s: State, error: string): State {
    s.(error := "mx: " + error, listening := false, timer := Immediate)
  }

  function Succeeded(s: State, answer: string): State {
    s.(listening := false, timer := Off, signals := s.signals + [Signal(s.message, answer, "")])
  }

  function Disabled(s: State, ns: nat): State
    requires ns < |s.nameservers|
  {
    s.(nameservers := s.nameservers[ns := None], nsFailures := s.nsFailures + 1)
  }

  function Started(s: State, message: string, forwardTo: string): State
    requires s.nameservers != []
  {
    if forwardTo == "" then Failed(s, "invalid empty doman")
    else
      var t := s.(message := message, nsIndex := 0, nsFailures := 0, error := "", question := forwardTo, listening := true);
      var u := Asked(t, MxQuery(0, forwardTo));
      u.(timer := TimerFor(u))
  }

  function Processed(s: State, m: Message): State {
    if m.valid && m.qr && m.id != 0 && m.id < |s.nameservers| + 1 then
      match ParseOf(m)
      case Error(reason) => if s.nsFailures + 1 < |s.nameservers| then Disabled(s, m.id - 1) else Failed(s, reason)
      case Fatal(reason) => Failed(s, reason)
      case Mx(name) => Asked(s, HostQuery(m.id - 1, name))
      case Cname(name) => Asked(s, MxQuery(m.id - 1, name))
      case Ip(address) => Succeeded(s, address)
    else s
  }

  function TimedOut(s: State): State
    requires s.nsIndex < |s.nameservers|
  {
    if s.error != "" then
      s.(listening := false, timer := Off, signals := s.signals + [Signal(s.message, "", s.error)])
    else
      var t := s.(nsIndex := if s.nsIndex + 1 == |s.nameservers| then 0 else s.nsIndex + 1);
      var u := Asked(t, MxQuery(t.nsIndex, t.question));
      u.(timer := TimerFor(u))
  }

  /** Datagrams need a read handler, and timeouts a timer; otherwise nothing happens. */
  function Next(s: State, e: Event): State
    requires s.nsIndex < |s.nameservers|
  {
    match e
    case Start(message, forwardTo) => Started(s, message, forwardTo)
    case Datagram(m) => if s.listening then Processed(s, m) else s
    case SocketError(reason) => if s.listening then Failed(s, "dns socket error: " + reason) else s
    case Timeout => if s.timer != Off then TimedOut(s) else s
    case Cancel => s.(listening := false, timer := Off)
  }

  // ----- what every step keeps

  function DisabledCount(ns: seq<Option<string>>): (n: nat)
    ensures n <= |ns|
  {
    if ns == [] then 0 else DisabledCount(ns[..|ns| - 1]) + if ns[|ns| - 1] == None then 1 else 0
  }

  lemma {:induction false} OneMoreDisabled(ns: seq<Option<string>>, i: nat)
    requires i < |ns|
    ensures DisabledCount(ns[i := None]) == DisabledCount(ns) + if ns[i] == None then 0 else 1
  {
    var last := |ns| - 1;
    if i == last {
      assert ns[i := None][..last] == ns[..last];
    } else {
      OneMoreDisabled(ns[..last], i);
      assert ns[i := None][..last] == ns[..last][i := None];
    }
  }

  lemma {:induction false} SomeEnabled(ns: seq<Option<string>>)
    ensures DisabledCount(ns) < |ns| <==> exists i :: 0 <= i < |ns| && ns[i] != None
  {
    if ns != [] {
      SomeEnabled(ns[..|ns| - 1]);
    }
  }

  /** Indices are in range and the signal is the last thing to happen; this holds in every state. */
  ghost predicate Orderly(s: State, before: nat) {
    && s.nsIndex < |s.nameservers| && s.nsFailures < |s.nameservers|
    && (s.listening ==> s.error == "" && s.timer != Off)
    && (s.timer == Immediate ==> s.error != "")
    && before <= |s.signals| <= before + 1
    && (|s.signals| > before ==> s.timer == Off)
    && forall q :: q in s.sent ==> q.ns < |s.nameservers|
  }

  /** No more nameservers are disabled than failures have been counted. */
  ghost predicate Counted(s: State) {
    DisabledCount(s.nameservers) <= s.nsFailures
  }

  lemma NextIsOrderly(s: State, e: Event, before: nat)
    requires Orderly(s, before) && !e.Start?
    ensures Orderly(Next(s, e), before)
    ensures |Next(s, e).nameservers| == |s.nameservers| && s.sent <= Next(s, e).sent && s.signals <= Next(s, e).signals
    ensures Counted(s) ==> Counted(Next(s, e))
  {
    hide ParseOf, DisabledCount;
    if e.Datagram? && 0 < e.response.id <= |s.nameservers| {
      OneMoreDisabled(s.nameservers, e.response.id - 1);
    }
  }

  function Run(s: State, events: seq<Event>): State
    requires s.nsIndex < |s.nameservers|
    ensures Run(s, events).nsIndex < |Run(s, events).nameservers|
    decreases |events|
  {
    if events == [] then s
    else
      var t := Run(s, events[..|events| - 1]);
      NextInRange(t, events[|events| - 1]);
      Next(t, events[|events| - 1])
  }

  lemma NextInRange(s: State, e: Event)
    requires s.nsIndex < |s.nameservers|
    ensures Next(s, e).nsIndex < |Next(s, e).nameservers|
  {
    hide ParseOf;
  }

  ghost predicate NoStart(events: seq<Event>) {
    forall i :: 0 <= i < |events| ==> !events[i].Start?
  }

  lemma {:induction false} RunIsOrderly(s: State, events: seq<Event>, before: nat)
    requires Orderly(s, before) && NoStart(events)
    ensures Orderly(Run(s, events), before)
    ensures |Run(s, events).nameservers| == |s.nameservers| && s.signals <= Run(s, events).signals
    ensures Counted(s) ==> Counted(Run(s, events))
  {
    hide Next, Counted;
    if events != [] {
      var last := |events| - 1;
      RunIsOrderly(s, events[..last], before);
      NextIsOrderly(Run(s, events[..last]), events[last], before);
    }
  }

  /** A lookup that is idle, before it is started. */
  ghost predicate Idle(s: State) {
    s.nsIndex < |s.nameservers| && s.nsFailures < |s.nameservers| && !s.listening && s.timer == Off
    && forall q :: q in s.sent ==> q.ns < |s.nameservers|
  }

  lemma StartedIsOrderly(s: State, message: string, forwardTo: string)
    requires Idle(s)
    ensures Orderly(Started(s, message, forwardTo), |s.signals|)
    ensures (forall i :: 0 <= i < |s.nameservers| ==> s.nameservers[i] != None) ==> Counted(Started(s, message, forwardTo))
  {
    hide DisabledCount;
    NoneDisabled(s.nameservers);
  }

  lemma {:induction false} NoneDisabled(ns: seq<Option<string>>)
    ensures DisabledCount(ns) == 0 <==> forall i :: 0 <= i < |ns| ==> ns[i] != None
  {
    if ns != [] {
      NoneDisabled(ns[..|ns| - 1]);
    }
  }

  /** After one start, over any interleaving of replies, late or repeated ones too, and timeouts, indices
      are in range, fewer failures are counted than there are nameservers, and at most one signal is given,
      after which there is silence. */
  lemma OneSignal(s: State, message: string, forwardTo: string, events: seq<Event>)
    requires Idle(s) && NoStart(events)
    ensures var t := Run(Started(s, message, forwardTo), events);
      && t.nsIndex < |t.nameservers| == |s.nameservers| && t.nsFailures < |t.nameservers|
      && |s.signals| <= |t.signals| <= |s.signals| + 1
      && (|t.signals| > |s.signals| ==> !t.listening && t.timer == Off)
  {
    hide Run, Started;
    StartedIsOrderly(s, message, forwardTo);
    StartedSame(s, message, forwardTo);
    RunIsOrderly(Started(s, message, forwardTo), events, |s.signals|);
  }

  lemma StartedSame(s: State, message: string, forwardTo: string)
    requires s.nameservers != []
    ensures Started(s, message, forwardTo).nameservers == s.nameservers && Started(s, message, forwardTo).signals == s.signals
  {
  }

  /** Until the signal, or a call of cancel(), a timer is running. */
  lemma {:induction false} PendingUntilSignal(s: State, events: seq<Event>, before: nat)
    requires Orderly(s, before) && NoStart(events) && forall i :: 0 <= i < |events| ==> !events[i].Cancel?
    requires s.timer != Off <==> |s.signals| == before
    ensures var t := Run(s, events); t.timer != Off <==> |t.signals| == before
  {
    if events != [] {
      var last := |events| - 1;
      PendingUntilSignal(s, events[..last], before);
      RunIsOrderly(s, events[..last], before);
      PendingStep(Run(s, events[..last]), events[last], before);
    }
  }

  lemma PendingStep(s: State, e: Event, before: nat)
    requires Orderly(s, before) && !e.Start? && !e.Cancel?
    requires s.timer != Off <==> |s.signals| == before
    ensures var t := Next(s, e); t.timer != Off <==> |t.signals| == before
  {
    hide ParseOf;
  }

  // ----- what is asked and reported

  /** The question and the timer after a start and after a timeout without an error. */
  lemma QuestionsOfTime(s: State, message: string, forwardTo: string)
    requires s.nsIndex < |s.nameservers|
    ensures forwardTo != "" ==> var t := Next(s, Start(message, forwardTo));
      && t.listening && t.error == "" && t.nameservers == s.nameservers && t.message == message
      && t.sent == s.sent + (if s.nameservers[0] == None then [] else [MxQuery(0, forwardTo)])
      && t.timer == if |s.nameservers| == 1 then RestartTimeout else NsTimeout
    ensures s.timer != Off && s.error == "" ==> var t := Next(s, Timeout);
      && t.nsIndex == (s.nsIndex + 1) % |s.nameservers|
      && t.sent == s.sent + (if s.nameservers[t.nsIndex] == None then [] else [MxQuery(t.nsIndex, s.question)])
      && t.timer == if t.nsIndex == |s.nameservers| - 1 then RestartTimeout else NsTimeout
  {
  }

  /** A reply for a nameserver leads to the next question to the same one, or to nothing if that is disabled.
      The nameserver is known by the identity in the reply; any other datagram is ignored. */
  lemma QuestionsOfReply(s: State, m: Message)
    requires s.nsIndex < |s.nameservers| && s.listening
    ensures !m.valid || !m.qr || m.id == 0 || m.id > |s.nameservers| ==> Next(s, Datagram(m)) == s
    ensures m.valid && m.qr && 1 <= m.id <= |s.nameservers| ==> var r, t := ParseOf(m), Next(s, Datagram(m));
      && (r.Mx? ==> t.sent == s.sent + if s.nameservers[m.id - 1] == None then [] else [HostQuery(m.id - 1, r.name)])
      && (r.Cname? ==> t.sent == s.sent + if s.nameservers[m.id - 1] == None then [] else [MxQuery(m.id - 1, r.name)])
      && (r.Ip? ==> t.signals == s.signals + [Signal(s.message, r.address, "")] && !t.listening && t.timer == Off)
      && (r.Error? && s.nsFailures + 1 < |s.nameservers| ==>
            t == s.(nameservers := s.nameservers[m.id - 1 := None], nsFailures := s.nsFailures + 1))
      && ((r.Error? && s.nsFailures + 1 >= |s.nameservers|) || r.Fatal? ==>
            t == s.(error := "mx: " + r.reason, listening := false, timer := Immediate))
  {
    hide ParseOf;
  }

  /** An event that a lookup can end with. */
  predicate Answers(e: Event, answer: string) {
    e.Datagram? && ParseOf(e.response) == Ip(answer)
  }

  predicate Fails(e: Event, error: string) {
    || (e.SocketError? && error == "mx: dns socket error: " + e.reason)
    || (e.Datagram? && ParseOf(e.response).Error? && error == "mx: " + ParseOf(e.response).reason)
    || (e.Datagram? && ParseOf(e.response).Fatal? && error == "mx: " + ParseOf(e.response).reason)
  }

  /** The signal of a lookup, if there is one, is for the message it was started with.  It has the address of
      some reply and no error, or no address and the error of some reply or socket. */
  lemma SignalMeans(s: State, message: string, forwardTo: string, events: seq<Event>)
    requires Idle(s) && NoStart(events) && forwardTo != ""
    ensures var t := Run(Started(s, message, forwardTo), events);
      |t.signals| > |s.signals| ==> Meant(t.signals[|s.signals|], message, events)
  {
    hide Run, Started, Meant;
    StartedIsOrderly(s, message, forwardTo);
    StartedSame(s, message, forwardTo);
    StartedMessage(s, message, forwardTo);
    MeantSoFar(Started(s, message, forwardTo), message, events);
  }

  ghost predicate Meant(g: Signal, message: string, events: seq<Event>) {
    && g.message == message
    && if g.error == "" then exists e :: e in events && Answers(e, g.answer)
       else g.answer == "" && exists e :: e in events && Fails(e, g.error)
  }

  lemma StartedMessage(s: State, message: string, forwardTo: string)
    requires s.nameservers != [] && forwardTo != ""
    ensures Started(s, message, forwardTo).message == message && Started(s, message, forwardTo).error == ""
  {
  }

  lemma {:induction false} MeantSoFar(s: State, message: string, events: seq<Event>)
    requires Orderly(s, |s.signals|) && NoStart(events) && s.message == message && s.error == ""
    ensures var t := Run(s, events);
      && t.message == message && (t.error != "" ==> exists e :: e in events && Fails(e, t.error))
      && (|t.signals| > |s.signals| ==> Meant(t.signals[|s.signals|], message, events))
  {
    hide ParseOf, Answers, Fails, Next;
    if events != [] {
      var last := |events| - 1;
      var before := events[..last];
      MeantSoFar(s, message, before);
      RunIsOrderly(s, before, |s.signals|);
      var e := events[last];
      assert e in events && forall b :: b in before ==> b in events;
      MeantStep(Run(s, before), e, |s.signals|);
    }
  }

  lemma MeantStep(s: State, e: Event, before: nat)
    requires Orderly(s, before) && !e.Start?
    ensures var t := Next(s, e);
      && t.message == s.message && (t.error == s.error || Fails(e, t.error))
      && (t.signals == s.signals
          || (|s.signals| == before && s.error == ""
              && exists a :: Answers(e, a) && t.signals == s.signals + [Signal(s.message, a, "")])
          || (|s.signals| == before && s.error != "" && t.signals == s.signals + [Signal(s.message, "", s.error)]))
  {
    hide ParseOf;
    if e.Datagram? && ParseOf(e.response).Ip? {
      assert Answers(e, ParseOf(e.response).address);
    }
  }

  /** After the signal, and after cancel(), nothing happens any more until the next start. */
  lemma {:induction false} Silence(s: State, events: seq<Event>)
    requires s.nsIndex < |s.nameservers| && !s.listening && s.timer == Off && NoStart(events)
    ensures Run(s, events) == s
  {
    hide Next;
    if events != [] {
      var last := |events| - 1;
      Silence(s, events[..last]);
      SilentStep(s, events[last]);
    }
  }

  lemma SilentStep(s: State, e: Event)
    requires s.nsIndex < |s.nameservers| && !s.listening && s.timer == Off && !e.Start?
    ensures Next(s, e) == s
  {
  }

  lemma CancelIsSilent(s: State, events: seq<Event>)
    requires s.nsIndex < |s.nameservers| && NoStart(events)
    ensures Run(s, [Cancel] + events) == s.(listening := false, timer := Off)
  {
    hide Run;
    RunFrom(s, Cancel, events);
    Silence(Next(s, Cancel), events);
  }

  /** Without a domain the error is reported at the next timeout, but for the message of the lookup before. */
  lemma EmptyDomain(s: State, message: string)
    requires Idle(s)
    ensures Run(Started(s, message, ""), [Timeout]).signals == s.signals + [Signal(s.message, "", "mx: invalid empty doman")]
  {
    hide Run;
    EmptyDomainText();
    EmptyDomainRun(Started(s, message, ""));
  }

  lemma EmptyDomainText()
    ensures "mx: " + "invalid empty doman" == "mx: invalid empty doman"
  {
  }

  lemma EmptyDomainRun(s: State)
    requires s.nsIndex < |s.nameservers|
    ensures Run(s, [Timeout]) == Next(s, Timeout)
  {
    assert [Timeout][..0] == [];
  }

  // ----- nameservers that are disabled

  lemma {:induction false} RunFrom(s: State, e: Event, events: seq<Event>)
    requires s.nsIndex < |s.nameservers|
    ensures Next(s, e).nsIndex < |Next(s, e).nameservers|
    ensures Run(s, [e] + events) == Run(Next(s, e), events)
    decreases |events|
  {
    hide Next;
    NextInRange(s, e);
    if events == [] {
      assert [e] + events == [e] && [e][..0] == [];
    } else {
      var last := |events| - 1;
      RunFrom(s, e, events[..last]);
      assert ([e] + events)[..|events|] == [e] + events[..last];
    }
  }

  /** An error reply from a nameserver. */
  function BadReply(ns: nat): Event {
    Datagram(Message(true, true, ns + 1, 2, false, []))
  }

  lemma BadReplyDisables(s: State, ns: nat)
    requires s.listening && ns < |s.nameservers| && s.nsFailures + 1 < |s.nameservers| && s.nsIndex < |s.nameservers|
    ensures Next(s, BadReply(ns)) == Disabled(s, ns)
  {
  }

  /** More nameservers are disabled than failures have been counted: then all of them can become so. */
  lemma {:induction false} AllCanBeDisabled(s: State) returns (events: seq<Event>)
    requires s.listening && s.nsIndex < |s.nameservers| && DisabledCount(s.nameservers) > s.nsFailures
    ensures NoStart(events) && DisabledCount(Run(s, events).nameservers) == |Run(s, events).nameservers|
    decreases |s.nameservers| - DisabledCount(s.nameservers)
  {
    hide Next;
    SomeEnabled(s.nameservers);
    if DisabledCount(s.nameservers) == |s.nameservers| {
      events := [];
    } else {
      var i: nat :| i < |s.nameservers| && s.nameservers[i] != None;
      BadReplyDisables(s, i);
      OneMoreDisabled(s.nameservers, i);
      var rest := AllCanBeDisabled(Disabled(s, i));
      RunFrom(s, BadReply(i), rest);
      events := [BadReply(i)] + rest;
    }
  }

  /** start() does not put disabled nameservers back.  Some nameserver stays enabled whatever happens exactly
      when none was disabled by an earlier lookup. */
  lemma OneStaysEnabled(s: State, message: string, forwardTo: string)
    requires Idle(s) && forwardTo != ""
    ensures (forall i :: 0 <= i < |s.nameservers| ==> s.nameservers[i] != None) <==>
      forall events :: NoStart(events) ==>
        var t := Run(Started(s, message, forwardTo), events); DisabledCount(t.nameservers) < |t.nameservers|
  {
    hide Run;
    var t := Started(s, message, forwardTo);
    StartedIsOrderly(s, message, forwardTo);
    StartedSame(s, message, forwardTo);
    NoneDisabled(s.nameservers);
    if forall i :: 0 <= i < |s.nameservers| ==> s.nameservers[i] != None {
      forall events | NoStart(events) ensures DisabledCount(Run(t, events).nameservers) < |Run(t, events).nameservers| {
        RunIsOrderly(t, events, |s.signals|);
      }
    } else {
      var events := AllCanBeDisabled(t);
    }
  }

  /** The state that the constructor makes. */
  function Fresh(nameservers: seq<string>): State {
    State("", "", "", 0, 0, seq(|nameservers|, i requires 0 <= i < |nameservers| => Some(nameservers[i])), false, Off, [], [])
  }

  /** A reply that ends a lookup with an address. */
  function AddressReply(ns: nat, address: string): Event {
    Datagram(Message(true, true, ns + 1, 0, false, [OtherAnswer(Some(address))]))
  }

  /** With two nameservers two lookups are enough: the first disables one and succeeds, which leaves an idle
      object, and the second disables the other. */
  lemma TwoLookupsDisableBoth(a: string, b: string, message: string, domain: string)
    requires domain != ""
    ensures var first := [Start(message, domain), BadReply(0), AddressReply(1, "address")];
      var s := Run(Fresh([a, b]), first); var t := Run(s, [Start(message, domain), BadReply(1)]);
      && Idle(s) && s.signals == [Signal(message, "address", "")] && s.nameservers == [None, Some(b)]
      && t.nameservers == [None, None] && t.listening
  {
    var s0 := Fresh([a, b]);
    var s1 := Next(s0, Start(message, domain));
    var s2 := Next(s1, BadReply(0));
    AddressIsTaken("address");
    var s3 := Next(s2, AddressReply(1, "address"));
    var s4 := Next(s3, Start(message, domain));
    RunThree(s0, Start(message, domain), BadReply(0), AddressReply(1, "address"));
    RunTwo(s3, Start(message, domain), BadReply(1));
  }

  lemma AddressIsTaken(address: string)
    ensures ParseOf(Message(true, true, 2, 0, false, [OtherAnswer(Some(address))])) == Ip(address)
  {
    var answers := [OtherAnswer(Some(address))];
    assert answers[..0] == [];
    assert LastCname([]) == "" && FirstAddress([]) == None;
  }

  lemma RunTwo(s: State, e: Event, f: Event)
    requires s.nsIndex < |s.nameservers|
    ensures Next(s, e).nsIndex < |Next(s, e).nameservers|
    ensures Run(s, [e, f]) == Next(Next(s, e), f)
  {
    hide Next;
    NextInRange(s, e);
    RunFrom(s, e, [f]);
    RunFrom(Next(s, e), f, []);
    assert [e] + [f] == [e, f] && [f] + [] == [f];
  }

  lemma RunThree(s: State, e: Event, f: Event, g: Event)
    requires s.nsIndex < |s.nameservers|
    ensures Next(s, e).nsIndex < |Next(s, e).nameservers|
    ensures Next(Next(s, e), f).nsIndex < |Next(Next(s, e), f).nameservers|
    ensures Run(s, [e, f, g]) == Next(Next(Next(s, e), f), g)
  {
    hide Next;
    NextInRange(s, e);
    NextInRange(Next(s, e), f);
    RunFrom(s, e, [f, g]);
    RunTwo(Next(s, e), f, g);
    assert [e] + [f, g] == [e, f, g];
  }

  // ----- nameservers are asked in turn

  /** The index k places further on. */
  function Turn(index: nat, k: nat, n: nat): nat
    requires index < n && k <= n
  {
    if index + k >= n then index + k - n else index + k
  }

  function Timeouts(k: nat): (events: seq<Event>)
    ensures |events| == k && NoStart(events)
  {
    seq(k, _ => Timeout)
  }

  ghost predicate AskedSince(s: State, t: State, q: Query) {
    exists i :: |s.sent| <= i < |t.sent| && t.sent[i] == q
  }

  lemma TimeoutStep(s: State)
    requires Orderly(s, |s.signals|) && s.listening
    ensures var t, i := Next(s, Timeout), Turn(s.nsIndex, 1, |s.nameservers|);
      && t == s.(nsIndex := i, timer := t.timer, sent := t.sent) && t.timer != Off
      && t.sent == s.sent + if s.nameservers[i] != None then [MxQuery(i, s.question)] else []
  {
  }

  lemma {:induction false} AskedInTurn(s: State, k: nat)
    requires Orderly(s, |s.signals|) && s.listening && k <= |s.nameservers|
    ensures var t := Run(s, Timeouts(k));
      t == s.(nsIndex := Turn(s.nsIndex, k, |s.nameservers|), timer := t.timer, sent := t.sent)
    ensures forall i :: (1 <= i <= k && s.nameservers[Turn(s.nsIndex, i, |s.nameservers|)] != None ==>
      AskedSince(s, Run(s, Timeouts(k)), MxQuery(Turn(s.nsIndex, i, |s.nameservers|), s.question)))
    ensures s.sent <= Run(s, Timeouts(k)).sent
  {
    hide Next;
    if k > 0 {
      AskedInTurn(s, k - 1);
      assert Timeouts(k)[..k - 1] == Timeouts(k - 1);
      var t, u := Run(s, Timeouts(k - 1)), Run(s, Timeouts(k));
      RunIsOrderly(s, Timeouts(k - 1), |s.signals|);
      TimeoutStep(t);
      assert u == Next(t, Timeout);
      assert Turn(t.nsIndex, 1, |s.nameservers|) == Turn(s.nsIndex, k, |s.nameservers|);
      forall q | AskedSince(s, t, q) ensures AskedSince(s, u, q) {
        var i :| |s.sent| <= i < |t.sent| && t.sent[i] == q;
        assert u.sent[i] == q;
      }
      var i := u.nsIndex;
      if s.nameservers[i] != None {
        assert u.sent[|t.sent|] == MxQuery(i, s.question);
      }
    }
  }

  /** While there is no reply each enabled nameserver is asked once in every round of timeouts. */
  lemma EveryoneIsAsked(s: State, ns: nat)
    requires Orderly(s, |s.signals|) && s.listening && ns < |s.nameservers| && s.nameservers[ns] != None
    ensures AskedSince(s, Run(s, Timeouts(|s.nameservers|)), MxQuery(ns, s.question))
  {
    hide Run, AskedSince;
    var n := |s.nameservers|;
    AskedInTurn(s, n);
    var k := if ns > s.nsIndex then ns - s.nsIndex else ns + n - s.nsIndex;
    assert Turn(s.nsIndex, k, n) == ns;
  }

  // ----- the object

  class MxLookup {
    var message: string
    var question: string
    var error: string
    var nsIndex: nat
    var nsFailures: nat
    var nameservers: seq<Option<string>>
    var listening: bool
    var timer: Timer
    var sent: seq<Query>
    var signals: seq<Signal>

    /** With the loopback addresses if there are no nameservers. */
    constructor (given: seq<string>, loopbacks: seq<string>)
      requires loopbacks != []
      ensures Value() == Fresh(if given == [] then loopbacks else given) && Idle(Value())
      ensures forall i :: 0 <= i < |nameservers| ==> nameservers[i] != None
    {
      message, question, error, nsIndex, nsFailures := "", "", "", 0, 0;
      var list := if given == [] then loopbacks else given;
      nameservers := seq(|list|, i requires 0 <= i < |list| => Some(list[i]));
      listening, timer, sent, signals := false, Off, [], [];
    }

    function Value(): State
      reads this
    {
      State(message, question, error, nsIndex, nsFailures, nameservers, listening, timer, sent, signals)
    }

    method StartLookup(id: string, forwardTo: string)
      requires nsIndex < |nameservers|
      modifies this
      ensures Value() == Next(old(Value()), Start(id, forwardTo))
    {
      if forwardTo == "" {
        Fail("invalid empty doman");
      } else {
        message, nsIndex, nsFailures, error, question, listening := id, 0, 0, "", forwardTo, true;
        Send(MxQuery(nsIndex, question));
        StartTimer();
      }
    }

    method Process(response: Message)
      requires nsIndex < |nameservers|
      modifies this
      ensures Value() == Processed(old(Value()), response)
    {
      if response.valid && response.qr && response.id != 0 && response.id < |nameservers| + 1 {
        var ns := response.id - 1;
        var outcome := Parse(response);
        match outcome
        case Error(reason) =>
          if nsFailures + 1 < |nameservers| {
            nameservers := nameservers[ns := None];
            nsFailures := nsFailures + 1;
          } else {
            Fail(reason);
          }
        case Fatal(reason) => Fail(reason);
        case Mx(name) => Send(HostQuery(ns, name));
        case Cname(name) => Send(MxQuery(ns, name));
        case Ip(address) =>
          CancelLookup();
          signals := signals + [Signal(message, address, "")];
      }
    }

    method OnTimeout()
      requires nsIndex < |nameservers|
      modifies this
      ensures Value() == TimedOut(old(Value()))
    {
      if error != "" {
        CancelLookup();
        signals := signals + [Signal(message, "", error)];
      } else {
        nsIndex := nsIndex + 1;
        if nsIndex == |nameservers| {
          nsIndex := 0;
        }
        Send(MxQuery(nsIndex, question));
        StartTimer();
      }
    }

    method CancelLookup()
      modifies this`listening, this`timer
      ensures !listening && timer == Off
    {
      listening, timer := false, Off;
    }

    method Fail(reason: string)
      modifies this`error, this`listening, this`timer
      ensures error == "mx: " + reason && !listening && timer == Immediate
    {
      error := "mx: " + reason;
      listening := false;
      timer := Immediate;
    }

    /** Questions go to nameservers that are not disabled. */
    method Send(q: Query)
      requires q.ns < |nameservers|
      modifies this`sent
      ensures Value() == Asked(old(Value()), q)
    {
      if nameservers[q.ns] != None {
        sent := sent + [q];
      }
    }

    method StartTimer()
      modifies this`timer
      ensures timer == TimerFor(old(Value()))
    {
      var last := nsIndex + 1 == |nameservers|;
      timer := if last then RestartTimeout else NsTimeout;
    }
  }
}
