/** The secrets file and its indexes (src/gauth/gsecretsfile.cpp, src/gauth/gsecret.cpp). */
module SecretsFile {
  import opened Wrappers
  import opened Str

  // ----- secrets

  datatype Encoding = Xtext | Base64Text | DottedText

  /** The decoding of fields, which is not part of this model. */
  datatype Codec = Codec(valid: (string, Encoding) -> bool, decode: (string, Encoding) -> string, isDotted: string -> bool)

  datatype Secret = Secret(id: string, secret: string, hash: string, line: nat) {
    predicate Valid() {
      secret != ""
    }

    predicate Masked() {
      hash != ""
    }
  }

  const NO_SECRET := Secret("", "", "", 0)

  /** The constructor of a secret; none stands for its exception. */
  function MakeSecret(codec: Codec, id: string, idEncoding: Encoding, secret: string, encoding: Encoding, hash: string,
                      line: nat): Option<Secret>
  {
    if id == "" || secret == "" || !codec.valid(id, idEncoding) || !codec.valid(secret, encoding)
       || (encoding == DottedText && !Imatch(hash, "md5"))
    then None
    else Some(Secret(codec.decode(id, idEncoding), codec.decode(secret, encoding), Lower(hash), line))
  }

  // ----- one line of the file

  datatype Entry =
    | Blank
    | Faulty
    | Broken
    | Trust(range: string, keyword: string, line: nat)
    | Selector(selector: string)
    | Server(kind: string, id: string, secret: Secret)
    | Client(kind: string, selector: string, secret: Secret)

  function Canonical(kind: string): string {
    if Imatch(kind, "cram-md5") then "md5"
    else if Imatch(kind, "apop") then "md5"
    else if Imatch(kind, "login") then "plain"
    else kind
  }

  function Word(words: seq<string>, i: nat): string {
    if i < |words| then words[i] else ""
  }

  function EntryOf(given: string, line: nat, codec: Codec): Entry {
    var trimmed := TrimLeft(TrimRight(given, WS), WS);
    if trimmed == "" || trimmed[0] == '#' then Blank
    else
      var words := Tokens(trimmed, {' ', '\t'});
      var w5 := Word(words, 4);
      if |words| < 4 then Faulty
      else EntryOfWords(line, words[0], words[1], words[2], words[3], if w5 != "" && w5[0] == '#' then "" else w5, codec)
  }

  /** The kind of a secret without its decoration, and how its fields are written. */
  function Kind(word: string): string {
    Canonical(Head(word, ':', word))
  }

  predicate IsPlain(kind: string) {
    Imatch(kind[..if |kind| < 5 then |kind| else 5], "plain")
  }

  function SecretOf(word: string, id: string, secret: string, line: nat, codec: Codec): Option<Secret> {
    var kind := Kind(word);
    if IsPlain(kind) then
      var encoding := if Imatch(TailFrom(word, ':'), "b") then Base64Text else Xtext;
      MakeSecret(codec, id, encoding, secret, encoding, "", line)
    else if Imatch(kind, "md5") && codec.isDotted(secret) then
      MakeSecret(codec, id, Xtext, secret, DottedText, "md5", line)
    else
      MakeSecret(codec, id, Xtext, secret, Base64Text, kind, line)
  }

  function EntryOfWords(line: nat, side: string, word: string, id: string, secret: string, selector: string, codec: Codec): Entry
  {
    var kind := Kind(word);
    if Imatch(side, "server") && Imatch(kind, "none") then Trust(id, secret, line)
    else if Imatch(side, "client") && Imatch(word, "plain:b") && id == "=" && secret == "=" then Selector(selector)
    else if !Imatch(side, "server") && !Imatch(side, "client") then Faulty
    else
      match SecretOf(word, id, secret, line, codec)
      case None => Broken
      case Some(s) => if Imatch(side, "server") then Server(kind, s.id, s) else Client(kind, selector, s)
  }

  // ----- the maps

  datatype Table = Table(
    secrets: map<string, Secret>,
    trust: map<string, (string, nat)>,
    selectors: map<string, nat>,
    serverTypes: set<string>,
    errors: nat)

  const EMPTY := Table(map[], map[], map[], {}, 0)

  function ServerKey(kind: string, id: string): string {
    "server " + Lower(kind) + " " + id
  }

  function ClientKey(kind: string, selector: string): string {
    "client " + Lower(kind) + (if selector == "" then "" else " ") + selector
  }

  /** The table after one more line. */
  function Processed(t: Table, e: Entry): Table {
    match e
    case Blank => t
    case Broken => t
    case Faulty => t.(errors := t.errors + 1)
    case Trust(range, keyword, line) =>
      if range in t.trust then t.(errors := t.errors + 1) else t.(trust := t.trust[range := (keyword, line)])
    case Selector(selector) =>
      if selector in t.selectors then t else t.(selectors := t.selectors[selector := 0])
    case Server(kind, id, secret) =>
      var key := ServerKey(kind, id);
      if key in t.secrets then t.(errors := t.errors + 1)
      else t.(secrets := t.secrets[key := secret], serverTypes := t.serverTypes + {Lower(kind)})
    case Client(kind, selector, secret) =>
      var key := ClientKey(kind, selector);
      if key in t.secrets then t.(errors := t.errors + 1)
      else t.(secrets := t.secrets[key := secret],
              selectors := t.selectors[selector := 1 + if selector in t.selectors then t.selectors[selector] else 0])
  }

  function Loaded(entries: seq<Entry>): Table {
    if entries == [] then EMPTY else Processed(Loaded(entries[..|entries| - 1]), entries[|entries| - 1])
  }

  // ----- looking up

  /** What has been read, if there is a file at all. */
  datatype Store = Store(valid: bool, table: Table)

  function ServerSecret(f: Store, kind: string, id: string): Secret {
    if !f.valid || id == "" then NO_SECRET
    else if ServerKey(kind, id) in f.table.secrets then f.table.secrets[ServerKey(kind, id)]
    else NO_SECRET
  }

  function ClientSecret(f: Store, kind: string, selector: string): Secret {
    if !f.valid then NO_SECRET
    else if ClientKey(kind, selector) in f.table.secrets then f.table.secrets[ClientKey(kind, selector)]
    else NO_SECRET
  }

  predicate ContainsServerSecret(f: Store, kind: string, id: string) {
    && f.valid
    && if id == "" then Lower(kind) in f.table.serverTypes else ServerKey(kind, id) in f.table.secrets
  }

  predicate ContainsClientSecret(f: Store, selector: string, withId: bool) {
    f.valid && selector in f.table.selectors && (withId ==> f.table.selectors[selector] != 0)
  }

  function ServerTrust(f: Store, range: string): Option<(string, nat)> {
    if f.valid && range in f.table.trust then Some(f.table.trust[range]) else None
  }

  // ----- the linear scan

  /** A line for some kind of secret and identity, whatever the case of the kind. */
  predicate IsServer(e: Entry, kind: string, id: string) {
    e.Server? && Lower(e.kind) == Lower(kind) && e.id == id
  }

  predicate IsClient(e: Entry, kind: string, selector: string) {
    e.Client? && Lower(e.kind) == Lower(kind) && e.selector == selector
  }

  predicate IsTrust(e: Entry, range: string) {
    e.Trust? && e.range == range
  }

  ghost predicate IsFirstServer(entries: seq<Entry>, i: nat, kind: string, id: string) {
    i < |entries| && IsServer(entries[i], kind, id) && forall j :: 0 <= j < i ==> !IsServer(entries[j], kind, id)
  }

  ghost predicate IsFirstClient(entries: seq<Entry>, i: nat, kind: string, selector: string) {
    i < |entries| && IsClient(entries[i], kind, selector) && forall j :: 0 <= j < i ==> !IsClient(entries[j], kind, selector)
  }

  ghost predicate IsFirstTrust(entries: seq<Entry>, i: nat, range: string) {
    i < |entries| && IsTrust(entries[i], range) && forall j :: 0 <= j < i ==> !IsTrust(entries[j], range)
  }

  ghost predicate SpaceFree(e: Entry) {
    (e.Server? || e.Client?) ==> ' ' !in e.kind
  }

  // ----- the keys tell lines apart

  lemma {:induction false} FirstSpace(a: string, b: string, s: string, t: string)
    requires ' ' !in a && ' ' !in b
    ensures a + " " + s == b + " " + t <==> a == b && s == t
  {
    if a + " " + s == b + " " + t {
      var u := a + " " + s;
      assert forall i :: 0 <= i < |a| ==> u[i] == a[i] && a[i] in a;
      assert forall i :: 0 <= i < |b| ==> u[i] == b[i] && b[i] in b;
      assert u[|a|] == ' ' && u[|b|] == ' ';
      assert |a| == |b|;
      assert a == u[..|a|] && b == u[..|a|];
      assert s == u[|a| + 1..] && t == u[|a| + 1..];
    }
  }

  lemma SamePrefix(p: string, s: string, t: string)
    ensures p + s == p + t <==> s == t
  {
    if p + s == p + t {
      assert s == (p + s)[|p|..] && t == (p + t)[|p|..];
    }
  }

  lemma ServerKeyIsInjective(kind: string, id: string, kind2: string, id2: string)
    requires ' ' !in kind && ' ' !in kind2
    ensures ServerKey(kind, id) == ServerKey(kind2, id2) <==> Lower(kind) == Lower(kind2) && id == id2
  {
    LowerOf(kind);
    LowerOf(kind2);
    hide Lower;
    FirstSpace(Lower(kind), Lower(kind2), id, id2);
    KeyParts(Lower(kind), id);
    KeyParts(Lower(kind2), id2);
    SamePrefix("server ", Lower(kind) + " " + id, Lower(kind2) + " " + id2);
  }

  lemma KeyParts(kind: string, id: string)
    ensures "server " + kind + " " + id == "server " + (kind + " " + id)
    ensures "client " + kind + " " + id == "client " + (kind + " " + id)
    ensures "client " + kind + "" + "" == "client " + kind
  {
  }

  lemma ClientKeyIsInjective(kind: string, selector: string, kind2: string, selector2: string)
    requires ' ' !in kind && ' ' !in kind2
    ensures ClientKey(kind, selector) == ClientKey(kind2, selector2) <==> Lower(kind) == Lower(kind2) && selector == selector2
  {
    LowerOf(kind);
    LowerOf(kind2);
    hide Lower;
    FirstSpace(Lower(kind), Lower(kind2), selector, selector2);
    KeyParts(Lower(kind), selector);
    KeyParts(Lower(kind2), selector2);
    var tail := if selector == "" then Lower(kind) else Lower(kind) + " " + selector;
    var tail2 := if selector2 == "" then Lower(kind2) else Lower(kind2) + " " + selector2;
    SamePrefix("client ", tail, tail2);
    if selector != "" {
      assert tail[|Lower(kind)|] == ' ' && tail[|Lower(kind)|] in tail;
    }
    if selector2 != "" {
      assert tail2[|Lower(kind2)|] == ' ' && tail2[|Lower(kind2)|] in tail2;
    }
  }

  /** A space in the kind would let two different questions have the same key. */
  lemma SpaceInKind()
    ensures ServerKey("md5 joe", "smith") == ServerKey("md5", "joe smith")
  {
    assert Lower("md5 joe") == "md5 joe" && Lower("md5") == "md5";
  }

  lemma SidesDiffer(kind: string, id: string, kind2: string, selector: string)
    ensures ServerKey(kind, id) != ClientKey(kind2, selector)
  {
    assert ServerKey(kind, id)[0] == 's' && ClientKey(kind2, selector)[0] == 'c';
  }

  // ----- the maps agree with the scan

  function KeyOf(e: Entry): Option<string> {
    match e
    case Server(kind, id, _) => Some(ServerKey(kind, id))
    case Client(kind, selector, _) => Some(ClientKey(kind, selector))
    case _ => None
  }

  ghost predicate IsFirstKey(entries: seq<Entry>, i: nat, key: string) {
    i < |entries| && KeyOf(entries[i]) == Some(key) && forall j :: 0 <= j < i ==> KeyOf(entries[j]) != Some(key)
  }

  /** The map keeps the secret of the first line with each key. */
  lemma {:induction false} FirstKey(entries: seq<Entry>, key: string) returns (i: nat)
    ensures key in Loaded(entries).secrets <==> exists j :: 0 <= j < |entries| && KeyOf(entries[j]) == Some(key)
    ensures key in Loaded(entries).secrets ==>
      IsFirstKey(entries, i, key) && Loaded(entries).secrets[key] == entries[i].secret
  {
    hide ServerKey, ClientKey;
    i := 0;
    if entries != [] {
      var last := |entries| - 1;
      i := FirstKey(entries[..last], key);
      if key !in Loaded(entries[..last]).secrets {
        i := last;
      }
    }
  }

  lemma KeyOfServer(e: Entry, kind: string, id: string)
    requires SpaceFree(e) && ' ' !in kind
    ensures KeyOf(e) == Some(ServerKey(kind, id)) <==> IsServer(e, kind, id)
  {
    hide ServerKey, ClientKey, Lower;
    match e
    case Server(k, i, _) => ServerKeyIsInjective(k, i, kind, id);
    case Client(k, l, _) => SidesDiffer(kind, id, k, l);
    case _ =>
  }

  lemma KeyOfClient(e: Entry, kind: string, selector: string)
    requires SpaceFree(e) && ' ' !in kind
    ensures KeyOf(e) == Some(ClientKey(kind, selector)) <==> IsClient(e, kind, selector)
  {
    hide ServerKey, ClientKey, Lower;
    match e
    case Server(k, i, _) => SidesDiffer(k, i, kind, selector);
    case Client(k, l, _) => ClientKeyIsInjective(k, l, kind, selector);
    case _ =>
  }

  ghost predicate AllSpaceFree(entries: seq<Entry>) {
    forall i :: 0 <= i < |entries| ==> SpaceFree(entries[i])
  }

  /** A server's secret is that of the first line for its kind and identity, if there is one. */
  lemma ServerSecretIsFirst(entries: seq<Entry>, kind: string, id: string) returns (i: nat)
    requires AllSpaceFree(entries) && ' ' !in kind && id != ""
    ensures ContainsServerSecret(Store(true, Loaded(entries)), kind, id)
      <==> exists j :: 0 <= j < |entries| && IsServer(entries[j], kind, id)
    ensures if exists j :: 0 <= j < |entries| && IsServer(entries[j], kind, id)
            then IsFirstServer(entries, i, kind, id) && ServerSecret(Store(true, Loaded(entries)), kind, id) == entries[i].secret
            else ServerSecret(Store(true, Loaded(entries)), kind, id) == NO_SECRET
  {
    hide ServerKey, Lower, Loaded, KeyOf;
    forall j | 0 <= j < |entries| ensures KeyOf(entries[j]) == Some(ServerKey(kind, id)) <==> IsServer(entries[j], kind, id) {
      assert SpaceFree(entries[j]);
      KeyOfServer(entries[j], kind, id);
    }
    i := FirstKey(entries, ServerKey(kind, id));
  }

  /** The same for a client's secret and its selector, which may be empty. */
  lemma ClientSecretIsFirst(entries: seq<Entry>, kind: string, selector: string) returns (i: nat)
    requires AllSpaceFree(entries) && ' ' !in kind
    ensures if exists j :: 0 <= j < |entries| && IsClient(entries[j], kind, selector)
            then IsFirstClient(entries, i, kind, selector) && ClientSecret(Store(true, Loaded(entries)), kind, selector) == entries[i].secret
            else ClientSecret(Store(true, Loaded(entries)), kind, selector) == NO_SECRET
  {
    hide ClientKey, Lower, Loaded, KeyOf;
    forall j | 0 <= j < |entries| ensures KeyOf(entries[j]) == Some(ClientKey(kind, selector)) <==> IsClient(entries[j], kind, selector) {
      assert SpaceFree(entries[j]);
      KeyOfClient(entries[j], kind, selector);
    }
    i := FirstKey(entries, ClientKey(kind, selector));
  }

  /** Trust is that of the first line for a range. */
  lemma {:induction false} TrustIsFirst(entries: seq<Entry>, range: string) returns (i: nat)
    ensures range in Loaded(entries).trust <==> exists j :: 0 <= j < |entries| && IsTrust(entries[j], range)
    ensures range in Loaded(entries).trust ==>
      IsFirstTrust(entries, i, range) && Loaded(entries).trust[range] == (entries[i].keyword, entries[i].line)
  {
    hide ServerKey, ClientKey;
    i := 0;
    if entries != [] {
      var last := |entries| - 1;
      i := TrustIsFirst(entries[..last], range);
      if range !in Loaded(entries[..last]).trust {
        i := last;
      }
    }
  }

  /** With no identity the question is whether any line has the kind. */
  lemma {:induction false} AnyServerSecret(entries: seq<Entry>, kind: string)
    requires AllSpaceFree(entries)
    ensures ContainsServerSecret(Store(true, Loaded(entries)), kind, "")
      <==> exists i :: 0 <= i < |entries| && entries[i].Server? && Lower(entries[i].kind) == Lower(kind)
  {
    hide ServerKey, ClientKey, Lower;
    if entries != [] {
      var last := |entries| - 1;
      AnyServerSecret(entries[..last], kind);
      var e := entries[last];
      if e.Server? && ServerKey(e.kind, e.id) in Loaded(entries[..last]).secrets {
        var i := FirstKey(entries[..last], ServerKey(e.kind, e.id));
        assert SpaceFree(entries[i]) && SpaceFree(e);
        KeyOfServer(entries[i], e.kind, e.id);
      }
    }
  }

  /** The kinds of client secrets found under a selector by scanning the file. */
  function ClientKinds(entries: seq<Entry>, selector: string): set<string> {
    if entries == [] then {}
    else
      var e, before := entries[|entries| - 1], ClientKinds(entries[..|entries| - 1], selector);
      if e.Client? && e.selector == selector then before + {Lower(e.kind)} else before
  }

  lemma {:induction false} ClientKindsAre(entries: seq<Entry>, selector: string)
    ensures forall kind :: (kind in ClientKinds(entries, selector) <==>
      exists i :: 0 <= i < |entries| && entries[i].Client? && entries[i].selector == selector && Lower(entries[i].kind) == kind)
  {
    hide Lower;
    if entries != [] {
      ClientKindsAre(entries[..|entries| - 1], selector);
    }
  }

  predicate Counts(t: Table, selector: string, kinds: set<string>) {
    if selector in t.selectors then t.selectors[selector] == |kinds| else kinds == {}
  }

  lemma CountOneMore(t: Table, e: Entry, selector: string, kinds: set<string>)
    requires Counts(t, selector, kinds)
    requires e.Client? && e.selector == selector
    requires ClientKey(e.kind, selector) in t.secrets <==> Lower(e.kind) in kinds
    ensures Counts(Processed(t, e), selector, kinds + {Lower(e.kind)})
  {
    hide ClientKey, Lower;
    if Lower(e.kind) in kinds {
      assert kinds + {Lower(e.kind)} == kinds;
    }
  }

  lemma CountTheSame(t: Table, e: Entry, selector: string, kinds: set<string>)
    requires Counts(t, selector, kinds)
    requires !(e.Client? && e.selector == selector)
    ensures Counts(Processed(t, e), selector, kinds)
  {
    hide ServerKey, ClientKey, Lower;
  }

  /** The count kept for a selector is the number of kinds of client secrets under it. */
  lemma {:induction false} SelectorCount(entries: seq<Entry>, selector: string)
    requires AllSpaceFree(entries)
    ensures Counts(Loaded(entries), selector, ClientKinds(entries, selector))
  {
    hide Processed, ClientKey, Lower, Counts;
    if entries == [] {
      CountNothing(selector);
    } else {
      var last := |entries| - 1;
      var e, before := entries[last], entries[..last];
      SelectorCount(before, selector);
      assert SpaceFree(e);
      if e.Client? && e.selector == selector {
        StoredKind(before, e.kind, selector);
        CountOneMore(Loaded(before), e, selector, ClientKinds(before, selector));
      } else {
        CountTheSame(Loaded(before), e, selector, ClientKinds(before, selector));
      }
    }
  }

  lemma CountNothing(selector: string)
    ensures Counts(EMPTY, selector, {})
  {
  }

  /** A selector is known when a line has it, with or without a secret. */
  lemma {:induction false} SelectorKnown(entries: seq<Entry>, selector: string)
    requires AllSpaceFree(entries)
    ensures ContainsClientSecret(Store(true, Loaded(entries)), selector, false)
      <==> exists i :: 0 <= i < |entries| && (entries[i] == Selector(selector) || (entries[i].Client? && entries[i].selector == selector))
    ensures ContainsClientSecret(Store(true, Loaded(entries)), selector, true)
      <==> exists i :: 0 <= i < |entries| && entries[i].Client? && entries[i].selector == selector
  {
    hide ServerKey, ClientKey, Lower;
    SelectorCount(entries, selector);
    ClientKindsAre(entries, selector);
    KindsOrNone(entries, selector);
    if entries != [] {
      var last := |entries| - 1;
      var e, before := entries[last], entries[..last];
      SelectorKnown(before, selector);
      if e.Client? && e.selector == selector {
        assert SpaceFree(e);
        StoredKind(before, e.kind, selector);
        SelectorCount(before, selector);
      }
    }
  }

  lemma KindsOrNone(entries: seq<Entry>, selector: string)
    ensures |ClientKinds(entries, selector)| == 0 <==>
      forall i :: 0 <= i < |entries| ==> !(entries[i].Client? && entries[i].selector == selector)
  {
    ClientKindsAre(entries, selector);
    hide ClientKinds, Lower;
    if i :| 0 <= i < |entries| && entries[i].Client? && entries[i].selector == selector {
      assert Lower(entries[i].kind) in ClientKinds(entries, selector);
    } else {
      assert ClientKinds(entries, selector) == {};
    }
  }

  lemma StoredKind(entries: seq<Entry>, kind: string, selector: string)
    requires AllSpaceFree(entries) && ' ' !in kind
    ensures ClientKey(kind, selector) in Loaded(entries).secrets <==> Lower(kind) in ClientKinds(entries, selector)
  {
    hide ClientKey, Loaded, KeyOf, Lower, SpaceFree, ClientKinds;
    forall i | 0 <= i < |entries| ensures KeyOf(entries[i]) == Some(ClientKey(kind, selector)) <==> IsClient(entries[i], kind, selector) {
      KeyOfClient(entries[i], kind, selector);
    }
    var i := FirstKey(entries, ClientKey(kind, selector));
    ClientKindsAre(entries, selector);
  }

  // ----- errors in the file

  ghost predicate IsProblem(entries: seq<Entry>, i: nat)
    requires i < |entries|
  {
    match entries[i]
    case Faulty => true
    case Trust(range, _, _) => exists j :: 0 <= j < i && IsTrust(entries[j], range)
    case _ => KeyOf(entries[i]).Some? && exists j :: 0 <= j < i && KeyOf(entries[j]) == KeyOf(entries[i])
  }

  /** No errors are counted exactly when every line is in order and no two lines are for the same thing. */
  lemma {:induction false} NoErrors(entries: seq<Entry>)
    ensures Loaded(entries).errors == 0 <==> forall i :: 0 <= i < |entries| ==> !IsProblem(entries, i)
  {
    hide Processed, KeyOf, IsProblem;
    if entries != [] {
      var last := |entries| - 1;
      var e, before := entries[last], entries[..last];
      NoErrors(before);
      forall i | 0 <= i < last ensures IsProblem(before, i) <==> IsProblem(entries, i) {
        SameProblem(entries, i);
      }
      LastProblem(entries);
      RefusedIsCounted(Loaded(before), e);
    }
  }

  lemma SameProblem(entries: seq<Entry>, i: nat)
    requires i < |entries| - 1
    ensures IsProblem(entries[..|entries| - 1], i) <==> IsProblem(entries, i)
  {
    hide KeyOf;
    var before := entries[..|entries| - 1];
    assert forall j :: 0 <= j <= i ==> before[j] == entries[j];
  }

  /** Whether a line is refused, given the lines before it. */
  predicate IsRefused(t: Table, e: Entry) {
    match e
    case Faulty => true
    case Trust(range, _, _) => range in t.trust
    case _ => KeyOf(e).Some? && KeyOf(e).value in t.secrets
  }

  lemma RefusedIsCounted(t: Table, e: Entry)
    ensures Processed(t, e).errors == t.errors + if IsRefused(t, e) then 1 else 0
  {
    hide ServerKey, ClientKey;
  }

  lemma LastProblem(entries: seq<Entry>)
    requires entries != []
    ensures IsRefused(Loaded(entries[..|entries| - 1]), entries[|entries| - 1]) <==> IsProblem(entries, |entries| - 1)
  {
    hide KeyOf, Loaded;
    var last := |entries| - 1;
    var e, before := entries[last], entries[..last];
    assert forall j :: 0 <= j < last ==> before[j] == entries[j];
    match e
    case Trust(range, _, _) =>
      var i := TrustIsFirst(before, range);
    case Faulty =>
    case _ =>
      if KeyOf(e).Some? {
        var i := FirstKey(before, KeyOf(e).value);
      }
  }

  // ----- whole files

  function Entries(text: string, codec: Codec): (r: seq<Entry>)
    ensures |r| == |Lines(text)|
  {
    seq(|Lines(text)|, i requires 0 <= i < |Lines(text)| => EntryOf(Lines(text)[i], i + 1, codec))
  }

  lemma HeadIsPart(s: string, c: char)
    ensures ' ' !in s ==> ' ' !in Head(s, c, s)
  {
  }

  lemma KindIsSpaceFree(word: string)
    requires ' ' !in word
    ensures ' ' !in Kind(word)
  {
    hide Lower, Head;
    HeadIsPart(word, ':');
  }

  lemma EntryIsSpaceFree(given: string, line: nat, codec: Codec)
    ensures SpaceFree(EntryOf(given, line, codec))
  {
    hide Kind, SecretOf, Imatch, Tokens, TrimRight, TrimLeft;
    var trimmed := TrimLeft(TrimRight(given, WS), WS);
    var words := Tokens(trimmed, {' ', '\t'});
    TokensAreWords(trimmed, {' ', '\t'});
    if |words| >= 4 {
      assert words[1] in words;
      KindIsSpaceFree(words[1]);
    }
  }

  /** No line of a file has a space in the kind of its secret, so that the lemmas above apply to any file. */
  lemma EntriesAreSpaceFree(text: string, codec: Codec)
    ensures AllSpaceFree(Entries(text, codec))
  {
    hide EntryOf, SpaceFree;
    var lines := Lines(text);
    forall i | 0 <= i < |lines| ensures SpaceFree(Entries(text, codec)[i]) {
      EntryIsSpaceFree(lines[i], i + 1, codec);
    }
  }

  /** For any file and any identity: the secret used is the one on the first line that matches. */
  lemma FileSecret(text: string, codec: Codec, kind: string, id: string) returns (i: nat)
    requires ' ' !in kind && id != ""
    ensures var entries := Entries(text, codec); var secret := ServerSecret(Store(true, Loaded(entries)), kind, id);
      if exists j :: 0 <= j < |entries| && IsServer(entries[j], kind, id)
      then IsFirstServer(entries, i, kind, id) && secret == entries[i].secret
      else secret == NO_SECRET
  {
    EntriesAreSpaceFree(text, codec);
    i := ServerSecretIsFirst(Entries(text, codec), kind, id);
  }

  // ----- what the lines say

  predicate IsWord(w: string) {
    w != "" && forall i :: 0 <= i < |w| ==> w[i] != ' ' && w[i] != '\t' && w[i] != '\n' && w[i] != '\r'
  }

  predicate IsGap(s: string) {
    s != "" && forall i :: 0 <= i < |s| ==> s[i] == ' ' || s[i] == '\t'
  }

  predicate IsBlank(s: string) {
    forall i :: 0 <= i < |s| ==> s[i] == ' ' || s[i] == '\t' || s[i] == '\n' || s[i] == '\r'
  }

  /** The words of a line and the gaps after the first four.  An empty fifth word stands for none. */
  datatype Fields = Fields(side: string, word: string, id: string, secret: string, fifth: string,
                           gap1: string, gap2: string, gap3: string, gap4: string) {
    predicate Good() {
      && IsWord(side) && IsWord(word) && IsWord(id) && IsWord(secret) && (fifth == "" || IsWord(fifth))
      && IsGap(gap1) && IsGap(gap2) && IsGap(gap3) && IsGap(gap4) && side[0] != '#'
    }

    function Last(): string {
      if fifth == "" then secret else secret + (gap4 + fifth)
    }

    function Text(): string {
      side + (gap1 + (word + (gap2 + (id + (gap3 + Last())))))
    }

    /** A comment may take the place of the selector. */
    function Selector(): string {
      if fifth != "" && fifth[0] == '#' then "" else fifth
    }
  }

  lemma WordThenGap(w: string, gap: string, rest: string)
    requires IsWord(w) && IsGap(gap) && rest != "" && rest[0] != ' ' && rest[0] != '\t'
    ensures Tokens(w + (gap + rest), {' ', '\t'}) == [w] + Tokens(rest, {' ', '\t'})
  {
    hide Tokens;
    TokensOfWord(w, gap + rest, {' ', '\t'});
    TokensAfterGap(gap, rest, {' ', '\t'});
  }

  lemma LastWord(w: string)
    requires IsWord(w)
    ensures Tokens(w, {' ', '\t'}) == [w]
  {
    TokensOfWord(w, "", {' ', '\t'});
    assert w + "" == w && Tokens("", {' ', '\t'}) == [];
  }

  lemma TokensOfText(fs: Fields)
    requires fs.Good()
    ensures Tokens(fs.Text(), {' ', '\t'})
      == [fs.side, fs.word, fs.id, fs.secret] + if fs.fifth == "" then [] else [fs.fifth]
  {
    hide Tokens;
    var last := fs.Last();
    if fs.fifth == "" {
      LastWord(fs.secret);
    } else {
      WordThenGap(fs.secret, fs.gap4, fs.fifth);
      LastWord(fs.fifth);
    }
    WordThenGap(fs.id, fs.gap3, last);
    WordThenGap(fs.word, fs.gap2, fs.id + (fs.gap3 + last));
    WordThenGap(fs.side, fs.gap1, fs.word + (fs.gap2 + (fs.id + (fs.gap3 + last))));
  }

  lemma TextEndsInWord(fs: Fields)
    requires fs.Good()
    ensures fs.Text() != "" && fs.Text()[0] == fs.side[0] && fs.Text()[|fs.Text()| - 1] !in WS
  {
    var last := if fs.fifth == "" then fs.secret else fs.fifth;
    assert fs.Text()[|fs.Text()| - 1] == last[|last| - 1];
  }

  /** The fields of a line are its words, whatever blanks there are around them. */
  lemma EntryOfText(fs: Fields, before: string, after: string, line: nat, codec: Codec)
    requires fs.Good() && IsBlank(before) && IsBlank(after)
    ensures EntryOf(before + fs.Text() + after, line, codec)
      == EntryOfWords(line, fs.side, fs.word, fs.id, fs.secret, fs.Selector(), codec)
  {
    hide EntryOfWords, Tokens, TrimLeft, TrimRight;
    var text := fs.Text();
    TextEndsInWord(fs);
    TrimBoth(before, text, after, WS);
    TokensOfText(fs);
    hide fs.Text;
  }

  /** The name of a kind with the old names replaced. */
  function Named(kind: string): string {
    if Lower(kind) == "cram-md5" || Lower(kind) == "apop" then "md5"
    else if Lower(kind) == "login" then "plain"
    else kind
  }

  /** A kind and what is written after a colon, if anything. */
  function Decorated(kind: string, decoration: Option<string>): string {
    match decoration case None => kind case Some(d) => kind + ":" + d
  }

  lemma SplitWord(kind: string, decoration: Option<string>)
    requires ':' !in kind
    ensures var word := Decorated(kind, decoration);
      Head(word, ':', word) == kind && TailFrom(word, ':') == if decoration == None then "" else decoration.value
  {
    var word := Decorated(kind, decoration);
    FindAtStart(word, {':'}, |kind|);
    assert word[..|kind|] == kind;
    if decoration.Some? {
      assert word[|kind| + 1..] == decoration.value;
    }
  }

  lemma CanonicalIsNamed(kind: string)
    ensures Canonical(kind) == Named(kind)
  {
    assert Lower("cram-md5") == "cram-md5" && Lower("apop") == "apop" && Lower("login") == "login";
  }

  lemma PlainPrefix(kind: string)
    ensures IsPlain(kind) <==> "plain" <= Lower(kind)
  {
    assert Lower("plain") == "plain";
    if |kind| >= 5 {
      assert Lower(kind[..5]) == Lower(kind)[..5];
    }
  }

  /** How the two fields of a secret are written, and the hash function that the secret is masked for. */
  function Codings(named: string, decoration: Option<string>, secret: string, codec: Codec): (Encoding, Encoding, string) {
    if "plain" <= Lower(named) then
      var encoding := if decoration.Some? && Lower(decoration.value) == "b" then Base64Text else Xtext;
      (encoding, encoding, "")
    else if Lower(named) == "md5" && codec.isDotted(secret) then (Xtext, DottedText, "md5")
    else (Xtext, Base64Text, Lower(named))
  }

  lemma SecretOfFields(fs: Fields, kind: string, decoration: Option<string>, line: nat, codec: Codec)
    requires fs.Good() && ':' !in kind && fs.word == Decorated(kind, decoration)
    ensures var (x, y, hash) := Codings(Named(kind), decoration, fs.secret, codec);
      SecretOf(fs.word, fs.id, fs.secret, line, codec)
      == if codec.valid(fs.id, x) && codec.valid(fs.secret, y)
         then Some(Secret(codec.decode(fs.id, x), codec.decode(fs.secret, y), hash, line)) else None
  {
    hide Lower, Decorated, Head, TailFrom, Canonical, IsPlain, Named;
    SplitWord(kind, decoration);
    CanonicalIsNamed(kind);
    PlainPrefix(Named(kind));
    LowerConstants();
  }

  lemma LowerConstants()
    ensures Lower("b") == "b" && Lower("") == "" && Lower("md5") == "md5" && Lower("none") == "none"
    ensures Lower("server") == "server" && Lower("client") == "client" && Lower("plain:b") == "plain:b"
  {
  }

  /** Which part of an entry each word of a line becomes: the side, the kind with its coding, the identity, the
      secret and the selector, in this order. */
  lemma LineMeans(fs: Fields, kind: string, decoration: Option<string>, before: string, after: string, line: nat, codec: Codec)
    requires fs.Good() && IsBlank(before) && IsBlank(after) && ':' !in kind && fs.word == Decorated(kind, decoration)
    ensures
      var side, named := Lower(fs.side), Named(kind);
      var (x, y, hash) := Codings(named, decoration, fs.secret, codec);
      var secret := Secret(codec.decode(fs.id, x), codec.decode(fs.secret, y), hash, line);
      var selector := if fs.fifth != "" && fs.fifth[0] == '#' then "" else fs.fifth;
      EntryOf(before + fs.Text() + after, line, codec) ==
        if side == "server" && Lower(named) == "none" then Trust(fs.id, fs.secret, line)
        else if side == "client" && Lower(fs.word) == "plain:b" && fs.id == "=" && fs.secret == "=" then Selector(selector)
        else if side != "server" && side != "client" then Faulty
        else if !codec.valid(fs.id, x) || !codec.valid(fs.secret, y) then Broken
        else if side == "server" then Server(named, secret.id, secret)
        else Client(named, selector, secret)
  {
    hide EntryOf, EntryOfWords, Lower, Decorated, Named, Codings, fs.Text, fs.Good;
    EntryOfText(fs, before, after, line, codec);
    WordsMean(fs, kind, decoration, fs.Selector(), line, codec);
  }

  lemma WordsMean(fs: Fields, kind: string, decoration: Option<string>, selector: string, line: nat, codec: Codec)
    requires fs.Good() && ':' !in kind && fs.word == Decorated(kind, decoration)
    ensures
      var side, named := Lower(fs.side), Named(kind);
      var (x, y, hash) := Codings(named, decoration, fs.secret, codec);
      var secret := Secret(codec.decode(fs.id, x), codec.decode(fs.secret, y), hash, line);
      EntryOfWords(line, fs.side, fs.word, fs.id, fs.secret, selector, codec) ==
        if side == "server" && Lower(named) == "none" then Trust(fs.id, fs.secret, line)
        else if side == "client" && Lower(fs.word) == "plain:b" && fs.id == "=" && fs.secret == "=" then Selector(selector)
        else if side != "server" && side != "client" then Faulty
        else if !codec.valid(fs.id, x) || !codec.valid(fs.secret, y) then Broken
        else if side == "server" then Server(named, secret.id, secret)
        else Client(named, selector, secret)
  {
    hide Lower, Decorated, Named, Codings, SecretOf, Kind, fs.Text, fs.Good;
    KindOfWord(fs.word, kind, decoration);
    SecretOfFields(fs, kind, decoration, line, codec);
    LowerConstants();
  }

  lemma KindOfWord(word: string, kind: string, decoration: Option<string>)
    requires ':' !in kind && word == Decorated(kind, decoration)
    ensures Kind(word) == Named(kind)
  {
    hide Decorated, Canonical, Named, Head;
    SplitWord(kind, decoration);
    CanonicalIsNamed(kind);
  }

  /** Blank lines and comments mean nothing, and fewer than four words are an error. */
  lemma OtherLines(before: string, words: string, after: string, line: nat, codec: Codec)
    requires IsBlank(before) && IsBlank(after)
    ensures EntryOf(before, line, codec) == Blank
    ensures words != "" && words[0] == '#' && words[|words| - 1] !in WS ==> EntryOf(before + words + after, line, codec) == Blank
    ensures words != "" && words[0] !in WS && words[0] != '#' && words[|words| - 1] !in WS && |Tokens(words, {' ', '\t'})| < 4 ==>
      EntryOf(before + words + after, line, codec) == Faulty
  {
    hide Tokens, TrimLeft, TrimRight, EntryOfWords;
    TrimRightBlank(before, WS);
    TrimNothing();
    if words != "" && words[0] !in WS && words[|words| - 1] !in WS {
      TrimBoth(before, words, after, WS);
    }
  }

  lemma TrimNothing()
    ensures TrimLeft("", WS) == ""
  {
  }

  /** A file of one line for the server: asked for that kind, in any case, and that identity, it gives the
      decoded secret. */
  lemma OneServerLine(fs: Fields, kind: string, decoration: Option<string>, codec: Codec, asked: string)
    requires fs.Good() && ':' !in kind && fs.word == Decorated(kind, decoration)
    requires Lower(fs.side) == "server" && Lower(Named(kind)) != "none" && Lower(asked) == Lower(Named(kind))
    requires var (x, y, _) := Codings(Named(kind), decoration, fs.secret, codec);
      codec.valid(fs.id, x) && codec.valid(fs.secret, y)
    ensures var (x, y, hash) := Codings(Named(kind), decoration, fs.secret, codec);
      var id := codec.decode(fs.id, x);
      id != "" ==>
        ServerSecret(Store(true, Loaded(Entries(fs.Text() + "\n", codec))), asked, id)
        == Secret(id, codec.decode(fs.secret, y), hash, 1)
  {
    hide EntryOf, Lower, Decorated, Named, Codings, Entries, Loaded, ServerSecret, fs.Text, fs.Good;
    var (x, y, hash) := Codings(Named(kind), decoration, fs.secret, codec);
    var id := codec.decode(fs.id, x);
    var secret := Secret(id, codec.decode(fs.secret, y), hash, 1);
    OneLine(fs, codec);
    LineMeans(fs, kind, decoration, "", "", 1, codec);
    assert Entries(fs.Text() + "\n", codec) == [Server(Named(kind), id, secret)];
    if id != "" {
      OneServer(Named(kind), id, secret, asked);
    }
  }

  lemma OneServer(kind: string, id: string, secret: Secret, asked: string)
    requires Lower(asked) == Lower(kind) && id != ""
    ensures ServerSecret(Store(true, Loaded([Server(kind, id, secret)])), asked, id) == secret
  {
    hide Lower;
    LoadedOne(Server(kind, id, secret));
    assert ServerKey(asked, id) == ServerKey(kind, id);
  }

  lemma OneClient(kind: string, selector: string, secret: Secret, asked: string)
    requires Lower(asked) == Lower(kind)
    ensures ClientSecret(Store(true, Loaded([Client(kind, selector, secret)])), asked, selector) == secret
  {
    hide Lower;
    LoadedOne(Client(kind, selector, secret));
    assert ClientKey(asked, selector) == ClientKey(kind, selector);
  }

  /** The same for the client and a selector. */
  lemma OneClientLine(fs: Fields, kind: string, decoration: Option<string>, codec: Codec, asked: string)
    requires fs.Good() && ':' !in kind && fs.word == Decorated(kind, decoration)
    requires Lower(fs.side) == "client" && Lower(asked) == Lower(Named(kind))
    requires fs.id != "=" || fs.secret != "="
    requires var (x, y, _) := Codings(Named(kind), decoration, fs.secret, codec);
      codec.valid(fs.id, x) && codec.valid(fs.secret, y)
    ensures var (x, y, hash) := Codings(Named(kind), decoration, fs.secret, codec);
      var selector := if fs.fifth != "" && fs.fifth[0] == '#' then "" else fs.fifth;
      ClientSecret(Store(true, Loaded(Entries(fs.Text() + "\n", codec))), asked, selector)
      == Secret(codec.decode(fs.id, x), codec.decode(fs.secret, y), hash, 1)
  {
    hide EntryOf, Lower, Decorated, Named, Codings, Entries, Loaded, ClientSecret, fs.Text, fs.Good;
    var (x, y, hash) := Codings(Named(kind), decoration, fs.secret, codec);
    var selector := if fs.fifth != "" && fs.fifth[0] == '#' then "" else fs.fifth;
    var secret := Secret(codec.decode(fs.id, x), codec.decode(fs.secret, y), hash, 1);
    OneLine(fs, codec);
    LineMeans(fs, kind, decoration, "", "", 1, codec);
    assert Entries(fs.Text() + "\n", codec) == [Client(Named(kind), selector, secret)];
    OneClient(Named(kind), selector, secret, asked);
  }

  lemma OneLine(fs: Fields, codec: Codec)
    requires fs.Good()
    ensures Entries(fs.Text() + "\n", codec) == [EntryOf("" + fs.Text() + "", 1, codec)]
  {
    NoLineEnd(fs);
    hide fs.Text, Entries, EntryOf;
    OneLineOf(fs.Text(), codec);
    assert "" + fs.Text() + "" == fs.Text();
  }

  lemma OneLineOf(text: string, codec: Codec)
    requires '\n' !in text
    ensures Entries(text + "\n", codec) == [EntryOf(text, 1, codec)]
  {
    hide EntryOf, Lines;
    LinesStep(text, "");
    LinesStep("", "");
    assert text + "\n" + "" == text + "\n";
  }

  lemma NoLineEnd(fs: Fields)
    requires fs.Good()
    ensures '\n' !in fs.Text()
  {
  }

  lemma LoadedOne(e: Entry)
    ensures Loaded([e]) == Processed(EMPTY, e)
  {
    assert [e][..0] == [];
  }

  /** Without a file there are no secrets, selectors or trusted ranges. */
  lemma NoFile(f: Store, kind: string, id: string, selector: string, range: string)
    requires !f.valid
    ensures ServerSecret(f, kind, id) == ClientSecret(f, kind, selector) == Secret("", "", "", 0)
    ensures !ContainsServerSecret(f, kind, id) && !ContainsClientSecret(f, selector, false) && ServerTrust(f, range) == None
  {
  }

  // ----- the contents of a file, line by line

  class Contents {
    var secrets: map<string, Secret>
    var trust: map<string, (string, nat)>
    var selectors: map<string, nat>
    var serverTypes: set<string>
    var errors: nat

    constructor ()
      ensures Value() == EMPTY
    {
      secrets, trust, selectors, serverTypes, errors := map[], map[], map[], {}, 0;
    }

    function Value(): Table
      reads this
    {
      Table(secrets, trust, selectors, serverTypes, errors)
    }

    method AddError()
      modifies this`errors
      ensures errors == old(errors) + 1
    {
      errors := errors + 1;
    }

    /** One line of four or five fields; false for the exception of an invalid secret. */
    method ProcessLine(line: nat, side: string, word: string, id: string, secret: string, selector: string, codec: Codec)
      returns (ok: bool)
      modifies this
      ensures var e := EntryOfWords(line, side, word, id, secret, selector, codec);
        ok == !e.Broken? && Value() == Processed(old(Value()), e)
    {
      hide Lower, ServerKey, ClientKey, Kind;
      var kind := Kind(word);
      var isServerSide := Imatch(side, "server");
      var isClientSide := Imatch(side, "client");
      if isServerSide && Imatch(kind, "none") {
        if id !in trust {
          trust := trust[id := (secret, line)];
        } else {
          AddError();
        }
        return true;
      }
      if isClientSide && Imatch(word, "plain:b") && id == "=" && secret == "=" {
        if selector !in selectors {
          selectors := selectors[selector := 0];
        }
        return true;
      }
      if !isServerSide && !isClientSide {
        AddError();
        return true;
      }
      var made := SecretOf(word, id, secret, line, codec);
      if made == None {
        return false;
      }
      if isServerSide {
        AddServer(kind, made.value);
      } else {
        AddClient(kind, selector, made.value);
      }
      ok := true;
    }

    method AddServer(kind: string, secret: Secret)
      modifies this
      ensures Value() == Processed(old(Value()), Server(kind, secret.id, secret))
    {
      var key := ServerKey(kind, secret.id);
      if key !in secrets {
        secrets := secrets[key := secret];
        serverTypes := serverTypes + {Lower(kind)};
      } else {
        AddError();
      }
    }

    method AddClient(kind: string, selector: string, secret: Secret)
      modifies this
      ensures Value() == Processed(old(Value()), Client(kind, selector, secret))
    {
      var key := ClientKey(kind, selector);
      if key !in secrets {
        secrets := secrets[key := secret];
        if selector !in selectors {
          selectors := selectors[selector := 0];
        }
        selectors := selectors[selector := selectors[selector] + 1];
      } else {
        AddError();
      }
    }

    /** One line of the file. */
    method ReadLine(given: string, line: nat, codec: Codec) returns (ok: bool)
      modifies this
      ensures var e := EntryOf(given, line, codec); ok == !e.Broken? && Value() == Processed(old(Value()), e)
    {
      hide EntryOfWords, Tokens;
      var trimmed := TrimLeft(TrimRight(given, WS), WS);
      ok := true;
      if trimmed != "" && trimmed[0] != '#' {
        var words := Tokens(trimmed, {' ', '\t'});
        var w5 := Word(words, 4);
        if w5 != "" && w5[0] == '#' {
          w5 := "";
        }
        if |words| >= 4 {
          ok := ProcessLine(line, words[0], words[1], words[2], words[3], w5, codec);
        } else {
          AddError();
        }
      }
    }
  }

  /** Reads a whole file; none if some secret in it is invalid. */
  method ReadContents(text: string, codec: Codec) returns (r: Option<Contents>)
    ensures r == None <==> exists e :: e in Entries(text, codec) && e.Broken?
    ensures r.Some? ==> fresh(r.value) && r.value.Value() == Loaded(Entries(text, codec))
  {
    hide EntryOf, Processed, Lines;
    var contents := new Contents();
    var lines := Lines(text);
    ghost var entries := Entries(text, codec);
    for i := 0 to |lines|
      invariant fresh(contents) && contents.Value() == Loaded(entries[..i])
      invariant forall j :: 0 <= j < i ==> !entries[j].Broken?
    {
      var ok := contents.ReadLine(lines[i], i + 1, codec);
      assert entries[..i + 1][..i] == entries[..i] && entries[i] in entries;
      if !ok {
        return None;
      }
    }
    assert entries[..|lines|] == entries;
    r := Some(contents);
  }
}
