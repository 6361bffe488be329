/** The file key store seen from outside: labels and secrets. */
module StoreRefinement {
  import opened Bytes
  import opened Outcomes
  import opened FileStore

  /** The secret under each label, and the labels that a directory of the same name makes unusable. */
  datatype Store = Store(secrets: map<string, bytes>, blocked: set<string>)

  ghost function LabelsOf(names: set<string>): set<string> {
    set n | n in names :: Label(n)
  }

  ghost function Secrets(d: Directory): map<string, bytes> {
    map l | l in LabelsOf(KeyNames(d)) && IsKeyFile(d, l + SUFFIX) :: d[l + SUFFIX].content
  }

  ghost function Blocked(d: Directory): set<string> {
    LabelsOf(set n | n in d && d[n].Dir? && IsKeyName(n))
  }

  ghost function Abstract(d: Directory): Store {
    Store(Secrets(d), Blocked(d))
  }

  predicate HasId<K>(c: Crypto<K>, secret: bytes, id: KeyID) {
    c.load(secret).Some? && c.digest(c.public(c.load(secret).value)) == id
  }

  /** The labels whose secret has an ID. */
  ghost function Labels<K>(c: Crypto<K>, m: Store, id: KeyID): set<string> {
    set l | l in m.secrets && HasId(c, m.secrets[l], id)
  }

  ghost predicate AllLoad<K>(c: Crypto<K>, m: Store) {
    forall l | l in m.secrets :: c.load(m.secrets[l]).Some?
  }

  // ------------------------------------------------------- the abstract machine

  ghost predicate AbstractStored<K>(c: Crypto<K>, m: Store, l: string, k: Option<K>, r: Result, m': Store) {
    if l in m.secrets || l in m.blocked then r == Refused(Exists) && m' == m
    else match k
      case None => r == Refused(LoadFailed) && m' == m
      case Some(k) => r == Created(c.digest(c.public(k))) && m' == m.(secrets := m.secrets[l := c.encode(k)])
  }

  ghost predicate NotFound<K>(c: Crypto<K>, m: Store, id: KeyID, r: Result) {
    || (r == Refused(NotExist) && Labels(c, m, id) == {} && AllLoad(c, m))
    || (r == Refused(LoadFailed) && !AllLoad(c, m))
  }

  /** What each operation may answer, and what it does to the labels and secrets. */
  ghost predicate AbstractStep<K>(c: Crypto<K>, m: Store, op: Op<K>, r: Result, m': Store) {
    match op
    case Create(l, k) => AbstractStored(c, m, l, k, r, m')
    case Import(l, secret) => AbstractStored(c, m, l, c.load(secret), r, m')
    case Open(id) =>
      && m' == m
      && (NotFound(c, m, id, r) || (r.Opened? && r.keyLabel in Labels(c, m, id) && m.secrets[r.keyLabel] == r.secret))
    case Destroy(id) =>
      || (NotFound(c, m, id, r) && m' == m)
      || (r == Destroyed && exists l :: l in Labels(c, m, id) && m' == m.(secrets := m.secrets - {l}))
    case List =>
      && m' == m
      && ((r == Refused(LoadFailed) && !AllLoad(c, m)) ||
          (r.Listed? && AllLoad(c, m) && forall id :: multiset(r.ids)[id] == |Labels(c, m, id)|))
  }

  // ------------------------------------------------------------ the abstraction

  lemma SecretsHas(d: Directory, l: string)
    ensures l in Secrets(d) <==> IsKeyFile(d, l + SUFFIX)
    ensures l in Secrets(d) ==> Secrets(d)[l] == d[l + SUFFIX].content
  {
    LabelRoundTrip(l);
    if IsKeyFile(d, l + SUFFIX) {
      assert l + SUFFIX in KeyNames(d);
      assert l in LabelsOf(KeyNames(d));
    }
  }

  lemma BlockedHas(d: Directory, l: string)
    ensures l in Blocked(d) <==> l + SUFFIX in d && d[l + SUFFIX].Dir?
  {
    var names := set n | n in d && d[n].Dir? && IsKeyName(n);
    LabelRoundTrip(l);
    if l in Blocked(d) {
      var n :| n in names && Label(n) == l;
      NameRoundTrip(n);
    }
    if l + SUFFIX in d && d[l + SUFFIX].Dir? {
      assert l + SUFFIX in names;
    }
  }

  /** A label is taken exactly when its file name is. */
  lemma Taken(d: Directory, l: string)
    ensures l + SUFFIX in d <==> l in Secrets(d) || l in Blocked(d)
  {
    LabelRoundTrip(l);
    SecretsHas(d, l);
    BlockedHas(d, l);
  }

  lemma LabelBears<K>(c: Crypto<K>, d: Directory, id: KeyID, l: string)
    ensures l in Labels(c, Abstract(d), id) <==> l + SUFFIX in Bearers(c, d, id)
  {
    LabelRoundTrip(l);
    SecretsHas(d, l);
  }

  /** As many labels have an ID as files bear it. */
  lemma LabelsCount<K>(c: Crypto<K>, d: Directory, id: KeyID)
    ensures |Labels(c, Abstract(d), id)| == |Bearers(c, d, id)|
  {
    var ls, ns := Labels(c, Abstract(d), id), Bearers(c, d, id);
    forall l ensures l in ls <==> l + SUFFIX in ns { LabelBears(c, d, id, l); }
    forall n | n in ns ensures Label(n) in ls && Label(n) + SUFFIX == n { NameRoundTrip(n); }
    SuffixCount(ls, ns);
  }

  lemma {:induction false} SuffixCount(ls: set<string>, ns: set<string>)
    requires forall l :: l in ls <==> l + SUFFIX in ns
    requires forall n | n in ns :: Label(n) in ls && Label(n) + SUFFIX == n
    ensures |ls| == |ns|
    decreases |ls|
  {
    if ls == {} {
      if n :| n in ns { assert false; }
    } else {
      var l :| l in ls;
      var ls', ns' := ls - {l}, ns - {l + SUFFIX};
      forall k ensures k in ls' <==> k + SUFFIX in ns' { if k != l { SameLabel(k, l); } }
      LabelRoundTrip(l);
      forall n | n in ns' ensures Label(n) in ls' && Label(n) + SUFFIX == n { assert n in ns; }
      SuffixCount(ls', ns');
    }
  }

  lemma HealthyAllLoad<K>(c: Crypto<K>, d: Directory)
    ensures Healthy(c, d) <==> AllLoad(c, Abstract(d))
  {
    if Healthy(c, d) {
      forall l | l in Secrets(d) ensures c.load(Secrets(d)[l]).Some? {
        SecretsHas(d, l);
        assert Loadable(c, d, l + SUFFIX);
      }
    }
    if AllLoad(c, Abstract(d)) {
      forall n | n in d ensures Loadable(c, d, n) {
        if IsKeyFile(d, n) {
          NameRoundTrip(n);
          SecretsHas(d, Label(n));
        }
      }
    }
  }

  // ----------------------------------------------------------------- refinement

  /** Every step of the store is a step of the abstract machine with the same operation and result. */
  lemma Refines<K>(c: Crypto<K>, d: Directory, op: Op<K>, r: Result, d': Directory)
    requires Step(c, d, op, r, d')
    ensures AbstractStep(c, Abstract(d), op, r, Abstract(d'))
  {
    match op
    case Create(l, k) => StoredRefines(c, d, l, k, r, d');
    case Import(l, secret) => StoredRefines(c, d, l, c.load(secret), r, d');
    case Open(id) => OpenRefines(c, d, id, r);
    case Destroy(id) => DestroyRefines(c, d, id, r, d');
    case List =>
      HealthyAllLoad(c, d);
      forall id ensures |Labels(c, Abstract(d), id)| == |Bearers(c, d, id)| { LabelsCount(c, d, id); }
  }

  lemma StoredRefines<K>(c: Crypto<K>, d: Directory, l: string, k: Option<K>, r: Result, d': Directory)
    requires Stored(c, d, l, k, r, d')
    ensures AbstractStored(c, Abstract(d), l, k, r, Abstract(d'))
  {
    Taken(d, l);
    if r.Created? { AbstractCreate(d, l, c.encode(k.value)); }
  }

  lemma SearchRefines<K>(c: Crypto<K>, d: Directory, id: KeyID, r: Result)
    requires SearchFailed(c, d, id, r)
    ensures NotFound(c, Abstract(d), id, r)
  {
    HealthyAllLoad(c, d);
    LabelsCount(c, d, id);
  }

  lemma OpenRefines<K>(c: Crypto<K>, d: Directory, id: KeyID, r: Result)
    requires Step(c, d, Open(id), r, d)
    ensures AbstractStep(c, Abstract(d), Open(id), r, Abstract(d))
  {
    if r.Opened? {
      LabelBears(c, d, id, r.keyLabel);
      SecretsHas(d, r.keyLabel);
    } else {
      SearchRefines(c, d, id, r);
    }
  }

  lemma DestroyRefines<K>(c: Crypto<K>, d: Directory, id: KeyID, r: Result, d': Directory)
    requires Step(c, d, Destroy(id), r, d')
    ensures AbstractStep(c, Abstract(d), Destroy(id), r, Abstract(d'))
  {
    if r == Destroyed {
      var n :| Removed(c, d, n, id, d');
      NameRoundTrip(n);
      LabelBears(c, d, id, Label(n));
      AbstractDestroy(d, Label(n));
    } else {
      SearchRefines(c, d, id, r);
    }
  }

  lemma AbstractCreate(d: Directory, l: string, content: bytes)
    requires l + SUFFIX !in d
    ensures var m := Abstract(d);
            Abstract(d[l + SUFFIX := File(content)]) == m.(secrets := m.secrets[l := content])
  {
    var d' := d[l + SUFFIX := File(content)];
    var was, now := Secrets(d), Secrets(d');
    forall k ensures k in now <==> k in was || k == l { SecretCreated(d, l, content, k); }
    forall k | k in now ensures now[k] == if k == l then content else was[k] { SecretCreated(d, l, content, k); }
    assert now == was[l := content];
    BlockedSame(d, d');
  }

  lemma SecretCreated(d: Directory, l: string, content: bytes, k: string)
    requires l + SUFFIX !in d
    ensures var was, now := Secrets(d), Secrets(d[l + SUFFIX := File(content)]);
            && (k in now <==> k in was || k == l)
            && (k in now ==> now[k] == if k == l then content else was[k])
  {
    LabelRoundTrip(l);
    SecretsHas(d, k);
    SecretsHas(d[l + SUFFIX := File(content)], k);
    if k != l { SameLabel(k, l); }
  }

  lemma AbstractDestroy(d: Directory, l: string)
    requires IsKeyFile(d, l + SUFFIX)
    ensures var m := Abstract(d); Abstract(d - {l + SUFFIX}) == m.(secrets := m.secrets - {l})
  {
    var was, now := Secrets(d), Secrets(d - {l + SUFFIX});
    forall k ensures k in now <==> k in was && k != l { SecretDestroyed(d, l, k); }
    forall k | k in now ensures now[k] == was[k] { SecretDestroyed(d, l, k); }
    assert now == was - {l};
    BlockedSame(d, d - {l + SUFFIX});
  }

  lemma SecretDestroyed(d: Directory, l: string, k: string)
    requires IsKeyFile(d, l + SUFFIX)
    ensures var was, now := Secrets(d), Secrets(d - {l + SUFFIX});
            (k in now <==> k in was && k != l) && (k in now ==> now[k] == was[k])
  {
    SecretsHas(d, k);
    SecretsHas(d - {l + SUFFIX}, k);
    if k != l { SameLabel(k, l); }
  }

  lemma BlockedSame(d: Directory, d': Directory)
    requires forall n :: n in d && d[n].Dir? <==> n in d' && d'[n].Dir?
    ensures Blocked(d) == Blocked(d')
  {
    forall l ensures l in Blocked(d) <==> l in Blocked(d') {
      BlockedHas(d, l);
      BlockedHas(d', l);
    }
  }

  ghost predicate IsAbstractRun<K>(c: Crypto<K>, m: Store, es: seq<Event<K>>)
    decreases |es|
  {
    es == [] ||
    (AbstractStep(c, m, es[0].op, es[0].result, Abstract(es[0].after)) &&
     IsAbstractRun(c, Abstract(es[0].after), es[1..]))
  }

  /** So every run of the store is a run of the abstract machine with the same operations and results. */
  lemma {:induction false} RunRefines<K>(c: Crypto<K>, d: Directory, es: seq<Event<K>>)
    requires IsRun(c, d, es)
    ensures IsAbstractRun(c, Abstract(d), es)
    decreases |es|
  {
    if es != [] {
      Refines(c, d, es[0].op, es[0].result, es[0].after);
      RunRefines(c, es[0].after, es[1..]);
    }
  }
}
