/** Splitting a message into one message for each remote domain (src/gfilters/gsplitfilter.cpp). */
module SplitFilter {
  import opened Str

  // ----- recipients and their domains

  function Domain(recipient: string): string {
    TailFrom(recipient, '@')
  }

  /** Domain names are compared without regard to case unless the filter is raw. */
  function Normal(domain: string, raw: bool): string {
    if raw then domain else Lower(domain)
  }

  predicate Match(a: string, b: string, raw: bool) {
    if raw then a == b else Imatch(a, b)
  }

  lemma MatchNormal(a: string, b: string, raw: bool)
    ensures Match(a, Normal(b, raw), raw) <==> Normal(a, raw) == Normal(b, raw)
    ensures Normal(Normal(b, raw), raw) == Normal(b, raw)
  {
    LowerOf(b);
  }

  function Matching(recipients: seq<string>, domain: string, raw: bool): seq<string> {
    if recipients == [] then []
    else
      var rest := Matching(recipients[1..], domain, raw);
      if Match(Domain(recipients[0]), domain, raw) then [recipients[0]] + rest else rest
  }

  // ----- the order of strings

  predicate Less(a: string, b: string) {
    b != "" && (a == "" || a[0] < b[0] || (a[0] == b[0] && Less(a[1..], b[1..])))
  }

  lemma {:induction false} LessIsTotal(a: string, b: string)
    ensures Less(a, b) || a == b || Less(b, a)
    ensures !(Less(a, b) && Less(b, a)) && !Less(a, a)
  {
    if a != "" {
      LessIsTotal(a[1..], a[1..]);
      if b != "" {
        LessIsTotal(a[1..], b[1..]);
        if a[0] == b[0] && a[1..] == b[1..] {
          assert a == [a[0]] + a[1..] && b == [b[0]] + b[1..];
        }
      }
    }
  }

  lemma {:induction false} LessIsTransitive(a: string, b: string, c: string)
    requires Less(a, b) && Less(b, c)
    ensures Less(a, c)
  {
    if a != "" && a[0] == b[0] && b[0] == c[0] {
      LessIsTransitive(a[1..], b[1..], c[1..]);
    }
  }

  predicate Increasing(ds: seq<string>) {
    forall i, j :: 0 <= i < j < |ds| ==> Less(ds[i], ds[j])
  }

  /** A domain put where it belongs, once. */
  function Inserted(ds: seq<string>, d: string): seq<string> {
    if ds == [] then [d]
    else if ds[0] == d then ds
    else if Less(d, ds[0]) then [d] + ds
    else [ds[0]] + Inserted(ds[1..], d)
  }

  lemma {:induction false} InsertedIsIncreasing(ds: seq<string>, d: string)
    requires Increasing(ds)
    ensures Increasing(Inserted(ds, d))
    ensures forall e :: e in Inserted(ds, d) <==> e in ds || e == d
  {
    hide Less;
    if ds != [] {
      var r := Inserted(ds[1..], d);
      InsertedIsIncreasing(ds[1..], d);
      LessIsTotal(d, ds[0]);
      if Less(d, ds[0]) {
        forall j | 0 <= j < |ds| ensures Less(d, ds[j]) {
          if j > 0 {
            LessIsTransitive(d, ds[0], ds[j]);
          }
        }
      } else if ds[0] != d {
        forall j | 0 <= j < |r| ensures Less(ds[0], r[j]) {
          assert r[j] in r;
        }
      }
    }
  }

  /** The normal domains of some recipients, sorted and without duplicates. */
  function Domains(recipients: seq<string>, raw: bool): seq<string> {
    if recipients == [] then []
    else Inserted(Domains(recipients[1..], raw), Normal(Domain(recipients[0]), raw))
  }

  lemma {:induction false} DomainsAre(recipients: seq<string>, raw: bool)
    ensures Increasing(Domains(recipients, raw))
    ensures forall d :: d in Domains(recipients, raw) <==> exists i :: 0 <= i < |recipients| && Normal(Domain(recipients[i]), raw) == d
    ensures Domains(recipients, raw) == [] <==> recipients == []
  {
    hide Normal, Domain, Inserted;
    if recipients != [] {
      var d := Normal(Domain(recipients[0]), raw);
      DomainsAre(recipients[1..], raw);
      InsertedIsIncreasing(Domains(recipients[1..], raw), d);
      assert d in Domains(recipients, raw);
    }
  }

  // ----- the groups

  lemma {:induction false} MatchingAre(recipients: seq<string>, d: string, raw: bool)
    requires Normal(d, raw) == d
    ensures forall r :: r in Matching(recipients, d, raw) <==> r in recipients && Normal(Domain(r), raw) == d
    ensures forall r :: multiset(Matching(recipients, d, raw))[r] == if Normal(Domain(r), raw) == d then multiset(recipients)[r] else 0
  {
    hide Normal, Domain, Match;
    if recipients != [] {
      var r := recipients[0];
      MatchingAre(recipients[1..], d, raw);
      NormalMatch(Domain(r), d, raw);
      assert recipients == [r] + recipients[1..];
    }
  }

  lemma NormalMatch(a: string, d: string, raw: bool)
    requires Normal(d, raw) == d
    ensures Match(a, d, raw) <==> Normal(a, raw) == d
  {
    MatchNormal(a, d, raw);
  }

  /** The groups for some of the domains, one after another. */
  function Groups(recipients: seq<string>, ds: seq<string>, raw: bool): seq<string> {
    if ds == [] then []
    else Groups(recipients, ds[..|ds| - 1], raw) + Matching(recipients, ds[|ds| - 1], raw)
  }

  lemma {:induction false} GroupsCount(recipients: seq<string>, ds: seq<string>, raw: bool, r: string)
    requires Increasing(ds) && forall d :: d in ds ==> Normal(d, raw) == d
    ensures multiset(Groups(recipients, ds, raw))[r] == if Normal(Domain(r), raw) in ds then multiset(recipients)[r] else 0
  {
    hide Normal, Domain, Matching;
    if ds != [] {
      var last := |ds| - 1;
      GroupsCount(recipients, ds[..last], raw, r);
      MatchingAre(recipients, ds[last], raw);
      NotBefore(ds);
      assert ds == ds[..last] + [ds[last]];
    }
  }

  lemma NotBefore(ds: seq<string>)
    requires Increasing(ds) && ds != []
    ensures ds[|ds| - 1] !in ds[..|ds| - 1]
  {
    hide Less;
    LessIsTotal(ds[|ds| - 1], ds[|ds| - 1]);
  }

  /** Splitting conserves recipients: the groups together hold every recipient as often as the original. */
  lemma Conserved(recipients: seq<string>, raw: bool)
    ensures multiset(Groups(recipients, Domains(recipients, raw), raw)) == multiset(recipients)
  {
    hide Groups, Domain, Lower;
    var ds := Domains(recipients, raw);
    DomainsAre(recipients, raw);
    NormalDomains(recipients, raw);
    forall r ensures multiset(Groups(recipients, ds, raw))[r] == multiset(recipients)[r] {
      GroupsCount(recipients, ds, raw, r);
    }
  }

  lemma NormalDomains(recipients: seq<string>, raw: bool)
    ensures forall d :: d in Domains(recipients, raw) ==> Normal(d, raw) == d
  {
    hide Domain, Lower, Domains;
    DomainsAre(recipients, raw);
    forall d | d in Domains(recipients, raw) ensures Normal(d, raw) == d {
      var i :| 0 <= i < |recipients| && Normal(Domain(recipients[i]), raw) == d;
      MatchNormal(d, Domain(recipients[i]), raw);
    }
  }

  /** Each recipient is in exactly one group, and no group is empty or has two domains. */
  lemma OneGroupEach(recipients: seq<string>, raw: bool)
    ensures var ds := Domains(recipients, raw);
      && (forall r :: r in recipients ==> exists i :: 0 <= i < |ds| && r in Matching(recipients, ds[i], raw))
      && (forall i, j, r :: 0 <= i < j < |ds| && r in Matching(recipients, ds[i], raw) ==> r !in Matching(recipients, ds[j], raw))
      && (forall i :: 0 <= i < |ds| ==> Matching(recipients, ds[i], raw) != [])
      && (forall i, r :: 0 <= i < |ds| && r in Matching(recipients, ds[i], raw) ==> Normal(Domain(r), raw) == ds[i])
  {
    hide Normal, Domain, Matching, Domains, Less;
    var ds := Domains(recipients, raw);
    DomainsAre(recipients, raw);
    NormalDomains(recipients, raw);
    forall i | 0 <= i < |ds|
      ensures forall r :: r in Matching(recipients, ds[i], raw) <==> r in recipients && Normal(Domain(r), raw) == ds[i]
      ensures exists r :: r in Matching(recipients, ds[i], raw)
    {
      assert ds[i] in ds;
      MatchingAre(recipients, ds[i], raw);
      var k :| 0 <= k < |recipients| && Normal(Domain(recipients[k]), raw) == ds[i];
      assert recipients[k] in Matching(recipients, ds[i], raw);
    }
    forall i, j | 0 <= i < j < |ds| ensures ds[i] != ds[j] {
      LessIsTotal(ds[i], ds[i]);
    }
    forall r | r in recipients ensures exists i :: 0 <= i < |ds| && r in Matching(recipients, ds[i], raw) {
      var i :| 0 <= i < |recipients| && recipients[i] == r;
      assert Normal(Domain(r), raw) in ds;
      var k :| 0 <= k < |ds| && ds[k] == Normal(Domain(r), raw);
      assert r in Matching(recipients, ds[k], raw);
    }
  }

  /** Where the recipients of a group stand in the original list. */
  ghost predicate KeepsOrder(group: seq<string>, recipients: seq<string>, at: seq<nat>) {
    && |at| == |group|
    && (forall k :: 0 <= k < |at| ==> at[k] < |recipients| && recipients[at[k]] == group[k])
    && forall k, l :: 0 <= k < l < |at| ==> at[k] < at[l]
  }

  /** The order within a group is that of the original list. */
  lemma {:induction false} MatchingKeepsOrder(recipients: seq<string>, d: string, raw: bool) returns (at: seq<nat>)
    ensures KeepsOrder(Matching(recipients, d, raw), recipients, at)
  {
    hide Match, Domain;
    if recipients == [] {
      at := [];
    } else {
      var rest := MatchingKeepsOrder(recipients[1..], d, raw);
      at := seq(|rest|, k requires 0 <= k < |rest| => rest[k] + 1);
      if Match(Domain(recipients[0]), d, raw) {
        at := [0] + at;
      }
    }
  }

  // ----- the message store

  /** The recipients in an envelope, and where the message goes; the rest is copied unchanged. */
  datatype Envelope = Envelope(toLocal: seq<string>, toRemote: seq<string>, forwardTo: string, rest: string)

  /** The content files and envelope files. A message has both. */
  datatype Files = Files(contents: set<string>, envelopes: map<string, Envelope>)

  predicate IsMessage(f: Files, id: string) {
    id in f.contents && id in f.envelopes
  }

  function ForwardTo(recipient: string, port: string): string {
    Domain(recipient) + (if port == "" then "" else ":") + port
  }

  function First(recipients: seq<string>): string {
    if recipients == [] then "" else recipients[0]
  }

  /** The envelope of a new message for one domain. */
  function NewEnvelope(env: Envelope, domain: string, raw: bool, port: string): Envelope {
    var group := Matching(env.toRemote, domain, raw);
    env.(toLocal := [], toRemote := group, forwardTo := ForwardTo(First(group), port))
  }

  /** The original's envelope after the split: the first domain, and all the local recipients. */
  function EditedEnvelope(env: Envelope, domain: string, raw: bool, port: string): Envelope {
    NewEnvelope(env, domain, raw, port).(toLocal := env.toLocal)
  }

  function WithMessage(f: Files, id: string, env: Envelope): Files {
    Files(f.contents + {id}, f.envelopes[id := env])
  }

  /** The files when the messages for the domains from the second up to the n-th have been made. */
  function Created(f: Files, env: Envelope, ds: seq<string>, ids: seq<string>, n: nat, raw: bool, port: string): Files
    requires n <= |ds| && n <= |ids|
  {
    if n <= 1 then f
    else WithMessage(Created(f, env, ds, ids, n - 1, raw, port), ids[n - 1], NewEnvelope(env, ds[n - 1], raw, port))
  }

  lemma {:induction false} CreatedAre(f: Files, env: Envelope, ds: seq<string>, ids: seq<string>, n: nat, raw: bool, port: string)
    requires n <= |ds| && n <= |ids| && forall i, j :: 0 <= i < j < |ids| ==> ids[i] != ids[j]
    ensures var g := Created(f, env, ds, ids, n, raw, port);
      && (forall i :: 1 <= i < n ==> IsMessage(g, ids[i]) && g.envelopes[ids[i]] == NewEnvelope(env, ds[i], raw, port))
      && (forall id :: (forall i :: 1 <= i < n ==> ids[i] != id) ==>
            (id in g.contents <==> id in f.contents) && (id in g.envelopes <==> id in f.envelopes)
            && (id in f.envelopes ==> g.envelopes[id] == f.envelopes[id]))
  {
    hide NewEnvelope;
    if n > 1 {
      CreatedAre(f, env, ds, ids, n - 1, raw, port);
      assert forall i :: 1 <= i < n - 1 ==> ids[i] != ids[n - 1];
    }
  }

  /** The files after a split that succeeds. */
  function AfterSplit(f: Files, env: Envelope, ids: seq<string>, raw: bool, port: string): Files
    requires 0 < |Domains(env.toRemote, raw)| <= |ids|
  {
    var ds := Domains(env.toRemote, raw);
    WithMessage(Created(f, env, ds, ids, |ds|, raw, port), ids[0], EditedEnvelope(env, ds[0], raw, port))
  }

  // ----- no recipient is ever missing

  ghost predicate HasRemote(f: Files, r: string) {
    exists id :: IsMessage(f, id) && r in f.envelopes[id].toRemote
  }

  /** Every recipient of the original is in the envelope of some message, the local ones in the original. */
  ghost predicate NoneMissing(f: Files, id: string, env: Envelope) {
    && (forall r :: r in env.toRemote ==> HasRemote(f, r))
    && IsMessage(f, id) && f.envelopes[id].toLocal == env.toLocal
  }

  lemma UntouchedMeansNoneMissing(f: Files, id: string, env: Envelope)
    requires IsMessage(f, id) && f.envelopes[id] == env
    ensures NoneMissing(f, id, env)
  {
  }

  lemma SplitMeansNoneMissing(f: Files, env: Envelope, ids: seq<string>, raw: bool, port: string)
    requires |ids| == |Domains(env.toRemote, raw)| > 0 && IsMessage(f, ids[0])
    requires forall i, j :: 0 <= i < j < |ids| ==> ids[i] != ids[j]
    ensures NoneMissing(AfterSplit(f, env, ids, raw, port), ids[0], env)
  {
    hide Domains, Matching, ForwardTo;
    var ds := Domains(env.toRemote, raw);
    var h := AfterSplit(f, env, ids, raw, port);
    CreatedAre(f, env, ds, ids, |ids|, raw, port);
    OneGroupEach(env.toRemote, raw);
    forall r | r in env.toRemote ensures HasRemote(h, r) {
      var i :| 0 <= i < |ds| && r in Matching(env.toRemote, ds[i], raw);
      assert IsMessage(h, ids[i]) && h.envelopes[ids[i]].toRemote == Matching(env.toRemote, ds[i], raw);
    }
  }

  /** The remote recipients of some messages, one message after another. */
  function RemotesOf(f: Files, ids: seq<string>): seq<string>
    requires forall id :: id in ids ==> id in f.envelopes
  {
    if ids == [] then [] else RemotesOf(f, ids[..|ids| - 1]) + f.envelopes[ids[|ids| - 1]].toRemote
  }

  lemma {:induction false} RemotesAreGroups(f: Files, ids: seq<string>, recipients: seq<string>, ds: seq<string>, raw: bool)
    requires |ids| == |ds| && forall i :: 0 <= i < |ids| ==>
      ids[i] in f.envelopes && f.envelopes[ids[i]].toRemote == Matching(recipients, ds[i], raw)
    ensures forall id :: id in ids ==> id in f.envelopes
    ensures RemotesOf(f, ids) == Groups(recipients, ds, raw)
  {
    hide Matching;
    if ids != [] {
      RemotesAreGroups(f, ids[..|ids| - 1], recipients, ds[..|ds| - 1], raw);
    }
  }

  /** Over the messages of the split the remote recipients are those of the original, as often as there, and
      the local ones are only in the original. */
  lemma SplitConserves(f: Files, env: Envelope, ids: seq<string>, raw: bool, port: string)
    requires |ids| == |Domains(env.toRemote, raw)| > 0 && forall i, j :: 0 <= i < j < |ids| ==> ids[i] != ids[j]
    ensures var h := AfterSplit(f, env, ids, raw, port);
      && (forall id :: id in ids ==> id in h.envelopes)
      && multiset(RemotesOf(h, ids)) == multiset(env.toRemote)
      && h.envelopes[ids[0]].toLocal == env.toLocal
      && forall i :: 1 <= i < |ids| ==> h.envelopes[ids[i]].toLocal == []
  {
    hide Domains, Matching, ForwardTo;
    var ds := Domains(env.toRemote, raw);
    CreatedAre(f, env, ds, ids, |ids|, raw, port);
    RemotesAreGroups(AfterSplit(f, env, ids, raw, port), ids, env.toRemote, ds, raw);
    Conserved(env.toRemote, raw);
  }

  // ----- addresses

  /** The domain of a recipient is what follows the first at sign. */
  lemma DomainOf(user: string, domain: string)
    requires '@' !in user
    ensures Domain(user + "@" + domain) == domain && Domain(user) == ""
  {
    var r := user + "@" + domain;
    FindAtStart(r, {'@'}, |user|);
    FindAtStart(user, {'@'}, |user|);
    assert r[|user| + 1..] == domain;
  }

  /** Two recipients are in one group exactly when their domains are the same, in any case unless the filter is raw. */
  lemma SameGroup(recipients: seq<string>, raw: bool, user: string, domain: string, user2: string, domain2: string)
    requires '@' !in user && '@' !in user2
    requires user + "@" + domain in recipients && user2 + "@" + domain2 in recipients
    ensures (exists d :: && d in Domains(recipients, raw)
                         && user + "@" + domain in Matching(recipients, d, raw)
                         && user2 + "@" + domain2 in Matching(recipients, d, raw))
      <==> if raw then domain == domain2 else Lower(domain) == Lower(domain2)
  {
    hide Domain, Matching, Domains, Less, Normal, Lower;
    var r, r2, ds := user + "@" + domain, user2 + "@" + domain2, Domains(recipients, raw);
    DomainOf(user, domain);
    DomainOf(user2, domain2);
    NormalDomains(recipients, raw);
    DomainsAre(recipients, raw);
    var i :| 0 <= i < |recipients| && recipients[i] == r;
    assert Normal(Domain(recipients[i]), raw) in ds;
    forall d | d in ds
      ensures forall q :: q in Matching(recipients, d, raw) <==> q in recipients && Normal(Domain(q), raw) == d
    {
      MatchingAre(recipients, d, raw);
    }
    NormalIs(domain, raw);
    NormalIs(domain2, raw);
  }

  lemma NormalIs(domain: string, raw: bool)
    ensures Normal(domain, raw) == if raw then domain else Lower(domain)
  {
  }

  /** Domains come in the order of their first characters that differ. */
  lemma {:induction false} LessAtFirst(same: string, x: char, s: string, y: char, t: string)
    ensures x < y ==> Less(same + [x] + s, same + [y] + t)
    ensures Less(same, same + [x] + s)
  {
    var a, b := same + [x] + s, same + [y] + t;
    if same != "" {
      assert a[1..] == same[1..] + [x] + s && b[1..] == same[1..] + [y] + t;
      LessAtFirst(same[1..], x, s, y, t);
    }
  }

  /** Each message of a split goes to the domain of its first recipient, at the port if there is one, and is
      otherwise like the original. */
  lemma SplitForwards(f: Files, env: Envelope, ids: seq<string>, raw: bool, port: string, i: nat, user: string, domain: string)
    requires |ids| == |Domains(env.toRemote, raw)| && forall i, j :: 0 <= i < j < |ids| ==> ids[i] != ids[j]
    requires i < |ids| && '@' !in user
    ensures var h := AfterSplit(f, env, ids, raw, port);
      && ids[i] in h.envelopes && h.envelopes[ids[i]].toRemote != [] && h.envelopes[ids[i]].rest == env.rest
      && (h.envelopes[ids[i]].toRemote[0] == user + "@" + domain ==>
            h.envelopes[ids[i]].forwardTo == if port == "" then domain else domain + ":" + port)
      && (h.envelopes[ids[i]].toRemote[0] == user ==>
            h.envelopes[ids[i]].forwardTo == if port == "" then "" else ":" + port)
  {
    hide Domains, Matching, Domain, Created, ForwardTo;
    var h, ds := AfterSplit(f, env, ids, raw, port), Domains(env.toRemote, raw);
    SplitEnvelope(f, env, ids, raw, port, i);
    OneGroupEach(env.toRemote, raw);
    assert Matching(env.toRemote, ds[i], raw) != [];
    ForwardToOf(user, domain, port);
  }

  lemma SplitEnvelope(f: Files, env: Envelope, ids: seq<string>, raw: bool, port: string, i: nat)
    requires |ids| == |Domains(env.toRemote, raw)| && forall i, j :: 0 <= i < j < |ids| ==> ids[i] != ids[j]
    requires i < |ids|
    ensures var h, group := AfterSplit(f, env, ids, raw, port), Matching(env.toRemote, Domains(env.toRemote, raw)[i], raw);
      && ids[i] in h.envelopes && h.envelopes[ids[i]].toRemote == group && h.envelopes[ids[i]].rest == env.rest
      && h.envelopes[ids[i]].forwardTo == ForwardTo(First(group), port)
  {
    hide Domains, Matching, Domain, Created, ForwardTo, First;
    CreatedAre(f, env, Domains(env.toRemote, raw), ids, |ids|, raw, port);
  }

  lemma ForwardToOf(user: string, domain: string, port: string)
    requires '@' !in user
    ensures ForwardTo(user + "@" + domain, port) == if port == "" then domain else domain + ":" + port
    ensures ForwardTo(user, port) == if port == "" then "" else ":" + port
  {
    hide Domain;
    DomainOf(user, domain);
    assert domain + "" == domain && "" + ":" == ":";
  }

  // ----- the filter

  /** What goes wrong, if anything; the envelope file of a failed write may hold anything. */
  datatype Fault =
    | NoFault
    | LinkFault(i: nat)
    | WriteFault(i: nat, part: Envelope)
    | EditFault

  /** Whether a fault is met when there are n domains. */
  predicate IsMet(fault: Fault, n: nat) {
    match fault
    case NoFault => false
    case LinkFault(i) => 1 <= i < n
    case WriteFault(i, _) => 1 <= i < n
    case EditFault => n > 0
  }

  /** What a failure leaves: the messages made before it stay, and the original is as it was. */
  function AfterFault(f: Files, env: Envelope, ids: seq<string>, fault: Fault, raw: bool, port: string): Files
    requires |Domains(env.toRemote, raw)| <= |ids| && IsMet(fault, |Domains(env.toRemote, raw)|)
  {
    var ds := Domains(env.toRemote, raw);
    match fault
    case LinkFault(i) => Created(f, env, ds, ids, i, raw, port)
    case WriteFault(i, part) =>
      var g := Created(f, env, ds, ids, i, raw, port);
      g.(envelopes := g.envelopes[ids[i] := part])
    case EditFault => Created(f, env, ds, ids, |ds|, raw, port)
  }

  /** How many of the domains have been given their message by then. */
  function DoneBefore(fault: Fault, n: nat): nat
    requires IsMet(fault, n)
  {
    match fault
    case LinkFault(i) => i
    case WriteFault(i, _) => i
    case EditFault => n
  }

  /** After a failure the recipients of the domains that were done are in two messages, their own and the
      original, and those of the domains that were not are in the original only. */
  lemma FaultLeavesTwice(f: Files, env: Envelope, ids: seq<string>, fault: Fault, raw: bool, port: string, i: nat)
    requires var n := |Domains(env.toRemote, raw)|; |ids| == n && IsMet(fault, n) && 1 <= i < n
    requires IsMessage(f, ids[0]) && f.envelopes[ids[0]] == env
    requires forall i, j :: 0 <= i < j < |ids| ==> ids[i] != ids[j]
    requires forall i :: 1 <= i < |ids| ==> ids[i] !in f.contents
    ensures var g := AfterFault(f, env, ids, fault, raw, port);
      && IsMessage(g, ids[0]) && g.envelopes[ids[0]] == env
      && (IsMessage(g, ids[i]) <==> i < DoneBefore(fault, |ids|))
      && (IsMessage(g, ids[i]) ==> g.envelopes[ids[i]].toRemote == Matching(env.toRemote, Domains(env.toRemote, raw)[i], raw))
  {
    hide Domains, Matching, ForwardTo;
    CreatedAre(f, env, Domains(env.toRemote, raw), ids, DoneBefore(fault, |ids|), raw, port);
  }

  class Store {
    var files: Files

    constructor (f: Files)
      ensures files == f
    {
      files := f;
    }

    method Link(id: string)
      modifies this
      ensures files == old(files).(contents := old(files).contents + {id})
    {
      files := files.(contents := files.contents + {id});
    }

    method Remove(id: string)
      modifies this
      ensures files == old(files).(contents := old(files).contents - {id})
    {
      files := files.(contents := files.contents - {id});
    }

    method Write(id: string, env: Envelope)
      modifies this
      ensures files == old(files).(envelopes := old(files).envelopes[id := env])
    {
      files := files.(envelopes := files.envelopes[id := env]);
    }
  }

  class SplitFilter {
    const store: Store
    const raw: bool
    const port: string

    constructor (s: Store, isRaw: bool, p: string)
      ensures store == s && raw == isRaw && port == p
    {
      store, raw, port := s, isRaw, p;
    }

    method SortedDomains(recipients: seq<string>) returns (ds: seq<string>)
      ensures ds == Domains(recipients, raw)
    {
      hide Inserted, Domain, Normal;
      ds := [];
      var i := |recipients|;
      while i > 0
        invariant 0 <= i <= |recipients| && ds == Domains(recipients[i..], raw)
      {
        i := i - 1;
        assert recipients[i..][1..] == recipients[i + 1..];
        ds := Inserted(ds, Normal(Domain(recipients[i]), raw));
      }
      assert recipients[0..] == recipients;
    }

    /** A new message for one domain; false if a file could not be made. The trace shows the files after
        each operation. */
    method NewMessage(id: string, env: Envelope, domain: string, i: nat, fault: Fault)
      returns (ok: bool, ghost trace: seq<Files>)
      requires id !in store.files.contents
      modifies store
      ensures ok <==> !(fault.LinkFault? && fault.i == i) && !(fault.WriteFault? && fault.i == i)
      ensures ok ==> store.files == WithMessage(old(store.files), id, NewEnvelope(env, domain, raw, port))
      ensures !ok ==> store.files == match fault
        case WriteFault(_, part) => old(store.files).(envelopes := old(store.files).envelopes[id := part])
        case _ => old(store.files)
      ensures forall f :: f in trace + [store.files] ==> SameButFor(f, old(store.files), id)
    {
      hide NewEnvelope;
      trace := [];
      if fault.LinkFault? && fault.i == i {
        return false, [];
      }
      store.Link(id);
      trace := [store.files];
      if fault.WriteFault? && fault.i == i {
        store.Write(id, fault.part);
        trace := trace + [store.files];
        store.Remove(id);
        return false, trace;
      }
      store.Write(id, NewEnvelope(env, domain, raw, port));
      ok := true;
    }

    /** Splits a message. The identities of the new messages are new to the store. */
    method Run(id: string, newIds: seq<string>, fault: Fault) returns (ok: bool, ghost trace: seq<Files>)
      requires IsMessage(store.files, id)
      requires |newIds| + 1 >= |Domains(store.files.envelopes[id].toRemote, raw)|
      requires forall i, j :: 0 <= i < j < |newIds| ==> newIds[i] != newIds[j]
      requires forall i :: 0 <= i < |newIds| ==> newIds[i] != id && newIds[i] !in store.files.contents
      modifies store
      ensures var f, env := old(store.files), old(store.files.envelopes[id]);
        var ds := Domains(env.toRemote, raw); var ids := [id] + newIds;
        && (ok ==> store.files == if ds == [] then f else AfterSplit(f, env, ids[..|ds|], raw, port))
        && (ok <==> !IsMet(fault, |ds|))
        && (!ok ==> store.files == AfterFault(f, env, ids[..|ds|], fault, raw, port))
        && (!ok ==> IsMessage(store.files, id) && store.files.envelopes[id] == env)
        && forall g :: g in trace + [store.files] ==> NoneMissing(g, id, env)
    {
      hide Domains, NewEnvelope, EditedEnvelope, NoneMissing, AfterFault;
      var env := store.files.envelopes[id];
      ghost var f := store.files;
      UntouchedMeansNoneMissing(f, id, env);
      trace := [];
      var ds := SortedDomains(env.toRemote);
      if ds == [] {
        return true, [];
      }
      var ids := [id] + newIds;
      var i := 1;
      while i < |ds|
        invariant 1 <= i <= |ds|
        invariant store.files == Created(f, env, ds, ids, i, raw, port)
        invariant fault.EditFault? || !IsMet(fault, i)
        invariant IsMessage(store.files, id) && store.files.envelopes[id] == env
        invariant forall j :: i <= j < |ids| ==> ids[j] !in store.files.contents
        invariant forall g :: g in trace ==> NoneMissing(g, id, env)
      {
        ghost var before := store.files;
        ghost var steps;
        ok, steps := NewMessage(ids[i], env, ds[i], i, fault);
        assert store.files in steps + [store.files];
        forall g | g in steps + [store.files] ensures NoneMissing(g, id, env) {
          UntouchedMeansNoneMissing(g, id, env);
        }
        trace := trace + steps + [store.files];
        if !ok {
          FaultAt(f, env, ids, fault, i, raw, port);
          return false, trace;
        }
        i := i + 1;
      }
      UntouchedMeansNoneMissing(store.files, id, env);
      SameCreated(f, env, ds, ids, |ds|, raw, port);
      FaultAt(f, env, ids, fault, |ds|, raw, port);
      if fault.EditFault? {
        return false, trace;
      }
      SplitMeansNoneMissing(f, env, ids[..|ds|], raw, port);
      store.Write(id, EditedEnvelope(env, ds[0], raw, port));
      assert store.files == AfterSplit(f, env, ids[..|ds|], raw, port);
      ok := true;
    }
  }

  /** Only one message may differ. */
  ghost predicate SameButFor(f: Files, g: Files, id: string) {
    forall other :: other != id ==>
      && (other in f.contents <==> other in g.contents)
      && (other in f.envelopes <==> other in g.envelopes)
      && (other in g.envelopes ==> f.envelopes[other] == g.envelopes[other])
  }

  /** What a fault leaves, with more identities at hand than domains. */
  lemma FaultAt(f: Files, env: Envelope, ids: seq<string>, fault: Fault, i: nat, raw: bool, port: string)
    requires 1 <= i <= |Domains(env.toRemote, raw)| <= |ids|
    ensures var ds := Domains(env.toRemote, raw); var g := Created(f, env, ds, ids, i, raw, port);
      && (fault == LinkFault(i) && i < |ds| ==> AfterFault(f, env, ids[..|ds|], fault, raw, port) == g)
      && (fault.WriteFault? && fault.i == i < |ds| ==>
            AfterFault(f, env, ids[..|ds|], fault, raw, port) == g.(envelopes := g.envelopes[ids[i] := fault.part]))
      && (fault.EditFault? && i == |ds| ==> AfterFault(f, env, ids[..|ds|], fault, raw, port) == g)
  {
    hide Domains, NewEnvelope, Created;
    SameCreated(f, env, Domains(env.toRemote, raw), ids, i, raw, port);
  }

  lemma {:induction false} SameCreated(f: Files, env: Envelope, ds: seq<string>, ids: seq<string>, n: nat, raw: bool, port: string)
    requires n <= |ds| <= |ids|
    ensures Created(f, env, ds, ids, n, raw, port) == Created(f, env, ds, ids[..|ds|], n, raw, port)
  {
    hide NewEnvelope;
    if n > 1 {
      SameCreated(f, env, ds, ids, n - 1, raw, port);
    }
  }
}
