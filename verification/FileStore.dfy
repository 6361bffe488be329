/** The file key store: provider/file.go. A directory maps names to entries; anything may be in it
    beside the key files. */
module FileStore {
  import opened Bytes
  import opened Outcomes

  datatype Entry = File(content: bytes) | Dir

  type Directory = map<string, Entry>

  type KeyID = bytes

  /** P-256 private keys and SHA-256, by what the store uses of them. */
  datatype Crypto<!K> = Crypto(load: bytes -> Option<K>, encode: K -> bytes, public: K -> bytes, digest: bytes -> bytes)

  /** A key is its encoding: what is stored is what was loaded. */
  ghost predicate Lawful<K(!new)>(c: Crypto<K>) {
    && (forall k :: c.load(c.encode(k)) == Some(k))
    && (forall b :: c.load(b).Some? ==> c.encode(c.load(b).value) == b)
  }

  function IdOf<K>(c: Crypto<K>, k: K): KeyID {
    c.digest(c.public(k))
  }

  /** The secret loads to a key whose public octets have the ID as their SHA-256 digest. */
  predicate HasPublic<K>(c: Crypto<K>, secret: bytes, id: KeyID) {
    match c.load(secret)
    case None => false
    case Some(k) => id == c.digest(c.public(k))
  }

  /** Keys with the same public octets have the same ID. With a digest that never collides these are the
      only ones. */
  lemma IdIsPublic<K>(c: Crypto<K>, k: K, k': K)
    ensures c.public(k) == c.public(k') ==> IdOf(c, k) == IdOf(c, k')
    ensures (forall a, b :: c.digest(a) == c.digest(b) ==> a == b) ==>
              (IdOf(c, k) == IdOf(c, k') <==> c.public(k) == c.public(k'))
    ensures c.load(c.encode(k)) == Some(k) ==> HasPublic(c, c.encode(k), IdOf(c, k))
  {
  }

  datatype StoreError = NotExist | Exists | LoadFailed

  // -------------------------------------------------------------------- names

  const SUFFIX: string := ".key"

  /** filepath.Ext: the suffix from the last dot of the last path element. */
  function Ext(name: string): string {
    ExtFrom(name, |name|)
  }

  function ExtFrom(name: string, i: nat): string
    requires i <= |name|
  {
    if i == 0 || name[i - 1] == '/' then ""
    else if name[i - 1] == '.' then name[i - 1..]
    else ExtFrom(name, i - 1)
  }

  predicate IsKeyName(name: string) {
    |name| >= 4 && name[|name| - 4..] == SUFFIX
  }

  /** The extension test of the source accepts exactly the names that end in the suffix. */
  lemma ExtIsKey(name: string)
    ensures Ext(name) == SUFFIX <==> IsKeyName(name)
  {
    ExtIsSuffix(name, |name|);
    if IsKeyName(name) {
      var n := |name|;
      var s := name[n - 4..];
      assert name[n - 1] == s[3] && name[n - 2] == s[2] && name[n - 3] == s[1] && name[n - 4] == s[0];
      assert ExtFrom(name, n - 3) == SUFFIX;
      assert ExtFrom(name, n - 2) == ExtFrom(name, n - 3);
      assert ExtFrom(name, n - 1) == ExtFrom(name, n - 2);
    }
  }

  lemma {:induction false} ExtIsSuffix(name: string, i: nat)
    requires i <= |name|
    ensures |ExtFrom(name, i)| <= |name| && name[|name| - |ExtFrom(name, i)|..] == ExtFrom(name, i)
  {
    if i > 0 && name[i - 1] != '/' && name[i - 1] != '.' { ExtIsSuffix(name, i - 1); }
  }

  /** strings.TrimSuffix(name, ".key"). */
  function Label(name: string): string {
    if IsKeyName(name) then name[..|name| - 4] else name
  }

  lemma LabelRoundTrip(keyLabel: string)
    ensures IsKeyName(keyLabel + SUFFIX) && Label(keyLabel + SUFFIX) == keyLabel
  {
    Joined(keyLabel, SUFFIX);
  }

  lemma NameRoundTrip(name: string)
    requires IsKeyName(name)
    ensures Label(name) + SUFFIX == name
  {
  }

  // ------------------------------------------------------------- the directory

  predicate IsKeyFile(d: Directory, n: string) {
    n in d && d[n].File? && IsKeyName(n)
  }

  function KeyNames(d: Directory): set<string> {
    set n | n in d && IsKeyFile(d, n)
  }

  /** A key file whose key has the given ID. */
  predicate EntryBears<K>(c: Crypto<K>, n: string, e: Entry, id: KeyID) {
    e.File? && IsKeyName(n) && c.load(e.content).Some? && IdOf(c, c.load(e.content).value) == id
  }

  predicate Bears<K>(c: Crypto<K>, d: Directory, n: string, id: KeyID) {
    n in d && EntryBears(c, n, d[n], id)
  }

  function Bearers<K>(c: Crypto<K>, d: Directory, id: KeyID): set<string> {
    set n | n in d && Bears(c, d, n, id)
  }

  predicate Loadable<K>(c: Crypto<K>, d: Directory, n: string) {
    IsKeyFile(d, n) ==> c.load(d[n].content).Some?
  }

  ghost predicate Healthy<K>(c: Crypto<K>, d: Directory) {
    forall n | n in d :: Loadable(c, d, n)
  }

  // ---------------------------------------------------------------- operations

  datatype Op<K> =
    | Create(keyLabel: string, generated: Option<K>)
    | Import(keyLabel: string, secret: bytes)
    | Open(id: KeyID)
    | Destroy(id: KeyID)
    | List

  datatype Result =
    | Created(id: KeyID)
    | Opened(keyLabel: string, secret: bytes)
    | Destroyed
    | Listed(ids: seq<KeyID>)
    | Refused(error: StoreError)

  ghost predicate Stored<K>(c: Crypto<K>, d: Directory, keyLabel: string, k: Option<K>, r: Result, d': Directory) {
    if keyLabel + SUFFIX in d then r == Refused(Exists) && d' == d
    else match k
      case None => r == Refused(LoadFailed) && d' == d
      case Some(k) => r == Created(IdOf(c, k)) && d' == d[keyLabel + SUFFIX := File(c.encode(k))]
  }

  /** A search by ID may only fail because no file bears it or because some file does not load. */
  ghost predicate SearchFailed<K>(c: Crypto<K>, d: Directory, id: KeyID, r: Result) {
    || (r == Refused(NotExist) && Bearers(c, d, id) == {} && Healthy(c, d))
    || (r == Refused(LoadFailed) && !Healthy(c, d))
  }

  ghost predicate Removed<K>(c: Crypto<K>, d: Directory, n: string, id: KeyID, d': Directory) {
    Bears(c, d, n, id) && d' == d - {n}
  }

  ghost predicate Step<K>(c: Crypto<K>, d: Directory, op: Op<K>, r: Result, d': Directory) {
    match op
    case Create(keyLabel, k) => Stored(c, d, keyLabel, k, r, d')
    case Import(keyLabel, secret) => Stored(c, d, keyLabel, c.load(secret), r, d')
    case Open(id) =>
      && d' == d
      && (SearchFailed(c, d, id, r) ||
          (r.Opened? && Bears(c, d, r.keyLabel + SUFFIX, id) && d[r.keyLabel + SUFFIX].content == r.secret))
    case Destroy(id) =>
      || (SearchFailed(c, d, id, r) && d' == d)
      || (r == Destroyed && exists n :: Removed(c, d, n, id, d'))
    case List =>
      && d' == d
      && ((r == Refused(LoadFailed) && !Healthy(c, d)) ||
          (r.Listed? && Healthy(c, d) && forall id :: multiset(r.ids)[id] == |Bearers(c, d, id)|))
  }

  class FileProvider<K> {
    const crypto: Crypto<K>
    var dir: Directory

    constructor (crypto: Crypto<K>, dir: Directory)
      ensures this.crypto == crypto && this.dir == dir
    {
      this.crypto, this.dir := crypto, dir;
    }

    /** The names of the key files; directories and other extensions are skipped. */
    method KeyFiles() returns (names: seq<string>)
      ensures forall n :: n in names <==> n in KeyNames(dir)
      ensures forall i, j | 0 <= i < j < |names| :: names[i] != names[j]
    {
      names := [];
      var rest := dir.Keys;
      while rest != {}
        invariant rest <= dir.Keys
        invariant forall n :: n in names <==> n in KeyNames(dir) && n !in rest
        invariant forall i, j | 0 <= i < j < |names| :: names[i] != names[j]
        decreases |rest|
      {
        var n :| n in rest;
        rest := rest - {n};
        if dir[n].Dir? { continue; }
        ExtIsKey(n);
        if Ext(n) != SUFFIX { continue; }
        names := names + [n];
      }
    }

    /** The contents of the key files by name. */
    method KeyMap() returns (keys: map<string, bytes>)
      ensures keys.Keys == KeyNames(dir) && forall n | n in keys :: keys[n] == dir[n].content
    {
      var names := KeyFiles();
      keys := map[];
      for i := 0 to |names|
        invariant forall n :: n in keys <==> n in names[..i]
        invariant forall n | n in keys :: n in KeyNames(dir) && keys[n] == dir[n].content
      {
        assert names[i] in names;
        keys := keys[names[i] := dir[names[i]].content];
      }
    }

    /** Looks at the key files in an arbitrary order, as Go iterates over a map. */
    method KeyFileByID(id: KeyID) returns (r: Outcome<string, StoreError>)
      ensures match r
              case Ok(n) => Bears(crypto, dir, n, id) && HasPublic(crypto, dir[n].content, id)
              case Err(e) => SearchFailed(crypto, dir, id, Refused(e))
              case Panic => false
    {
      var keys := KeyMap();
      var rest := keys.Keys;
      while rest != {}
        invariant rest <= keys.Keys
        invariant forall n | n in keys.Keys - rest :: Loadable(crypto, dir, n) && !Bears(crypto, dir, n, id)
        decreases |rest|
      {
        var n :| n in rest;
        rest := rest - {n};
        var sk := crypto.load(keys[n]);
        if sk.None? {
          assert !Loadable(crypto, dir, n);
          return Err(LoadFailed);
        }
        if IdOf(crypto, sk.value) == id { return Ok(n); }
      }
      assert forall n | n in dir :: n in KeyNames(dir) || !IsKeyFile(dir, n);
      return Err(NotExist);
    }

    method OpenKey(id: KeyID) returns (r: Result)
      ensures Step(crypto, dir, Open(id), r, dir)
      ensures r.Opened? ==> HasPublic(crypto, r.secret, id)
    {
      var name := KeyFileByID(id);
      if name.Err? { return Refused(name.error); }
      NameRoundTrip(name.value);
      return Opened(Label(name.value), dir[name.value].content);
    }

    method CreateKeyFromSecret(keyLabel: string, secret: bytes) returns (r: Result)
      requires '/' !in keyLabel
      modifies this
      ensures Step(crypto, old(dir), Import(keyLabel, secret), r, dir)
      ensures r.Created? ==> HasPublic(crypto, secret, r.id)
    {
      if keyLabel + SUFFIX in dir { return Refused(Exists); }
      var sk := crypto.load(secret);
      if sk.None? { return Refused(LoadFailed); }
      dir := dir[keyLabel + SUFFIX := File(crypto.encode(sk.value))];
      return Created(IdOf(crypto, sk.value));
    }

    method CreateKey(keyLabel: string, generated: Option<K>) returns (r: Result)
      requires '/' !in keyLabel
      modifies this
      ensures Step(crypto, old(dir), Create(keyLabel, generated), r, dir)
      ensures r.Created? ==> generated.Some? && r.id == crypto.digest(crypto.public(generated.value))
    {
      if keyLabel + SUFFIX in dir { return Refused(Exists); }
      if generated.None? { return Refused(LoadFailed); }
      dir := dir[keyLabel + SUFFIX := File(crypto.encode(generated.value))];
      return Created(IdOf(crypto, generated.value));
    }

    method DestroyKey(id: KeyID) returns (r: Result)
      modifies this
      ensures Step(crypto, old(dir), Destroy(id), r, dir)
      ensures forall n | n in old(dir) && n !in dir :: old(dir)[n].File? && HasPublic(crypto, old(dir)[n].content, id)
    {
      var name := KeyFileByID(id);
      if name.Err? { return Refused(name.error); }
      dir := dir - {name.value};
      assert Removed(crypto, old(dir), name.value, id, dir);
      return Destroyed;
    }

    /** The IDs of all keys, in an arbitrary order. */
    method ListKeys() returns (r: Result)
      ensures Step(crypto, dir, List, r, dir)
      ensures r.Listed? ==> forall id | id in r.ids :: SomeKeyHas(crypto, dir, id)
    {
      var keys := KeyMap();
      var ids: seq<KeyID> := [];
      var rest := keys.Keys;
      while rest != {}
        invariant rest <= keys.Keys
        invariant forall n | n in keys.Keys - rest :: Loadable(crypto, dir, n)
        invariant Counted(crypto, dir, rest, ids)
        decreases |rest|
      {
        var n :| n in rest;
        var sk := crypto.load(keys[n]);
        if sk.None? {
          assert !Loadable(crypto, dir, n);
          return Refused(LoadFailed);
        }
        CountOne(crypto, dir, rest, n, ids);
        rest := rest - {n};
        ids := ids + [IdOf(crypto, sk.value)];
      }
      CountedAll(crypto, dir, ids);
      ListedKeys(crypto, dir, ids);
      assert forall n | n in dir :: n in KeyNames(dir) || !IsKeyFile(dir, n);
      return Listed(ids);
    }
  }

  /** The IDs counted so far, when the files in `rest` are still to come. */
  ghost predicate Counted<K>(c: Crypto<K>, d: Directory, rest: set<string>, ids: seq<KeyID>) {
    forall id :: multiset(ids)[id] == |Bearers(c, d, id) - rest|
  }

  lemma CountedAll<K>(c: Crypto<K>, d: Directory, ids: seq<KeyID>)
    requires Counted(c, d, {}, ids)
    ensures forall id :: multiset(ids)[id] == |Bearers(c, d, id)|
  {
    assert forall id :: Bearers(c, d, id) - {} == Bearers(c, d, id);
  }

  ghost predicate SomeKeyHas<K>(c: Crypto<K>, d: Directory, id: KeyID) {
    exists n :: IsKeyFile(d, n) && HasPublic(c, d[n].content, id)
  }

  lemma ListedKeys<K>(c: Crypto<K>, d: Directory, ids: seq<KeyID>)
    requires forall id :: multiset(ids)[id] == |Bearers(c, d, id)|
    ensures forall id | id in ids :: SomeKeyHas(c, d, id)
  {
    forall id | id in ids ensures SomeKeyHas(c, d, id) {
      assert multiset(ids)[id] > 0;
      var n :| n in Bearers(c, d, id);
      assert IsKeyFile(d, n) && HasPublic(c, d[n].content, id);
    }
  }

  lemma CountOne<K>(c: Crypto<K>, d: Directory, rest: set<string>, n: string, ids: seq<KeyID>)
    requires Counted(c, d, rest, ids) && n in rest && IsKeyFile(d, n) && c.load(d[n].content).Some?
    ensures Counted(c, d, rest - {n}, ids + [IdOf(c, c.load(d[n].content).value)])
  {
    var own := IdOf(c, c.load(d[n].content).value);
    forall id ensures multiset(ids + [own])[id] == |Bearers(c, d, id) - (rest - {n})| {
      assert multiset(ids)[id] == |Bearers(c, d, id) - rest|;
      assert n in Bearers(c, d, id) <==> id == own;
      Released(Bearers(c, d, id), rest, n);
    }
  }

  lemma Released(b: set<string>, rest: set<string>, n: string)
    requires n in rest
    ensures |b - (rest - {n})| == |b - rest| + (if n in b then 1 else 0)
  {
    if n in b {
      assert b - (rest - {n}) == (b - rest) + {n};
    } else {
      assert b - (rest - {n}) == b - rest;
    }
  }

  // --------------------------------------------------------------------- runs

  datatype Event<K> = Event(op: Op<K>, result: Result, after: Directory)

  ghost predicate IsRun<K>(c: Crypto<K>, d: Directory, es: seq<Event<K>>)
    decreases |es|
  {
    es == [] || (Step(c, d, es[0].op, es[0].result, es[0].after) && IsRun(c, es[0].after, es[1..]))
  }

  ghost function FinalState<K>(d: Directory, es: seq<Event<K>>): Directory
    decreases |es|
  {
    if es == [] then d else FinalState(es[0].after, es[1..])
  }

  /** How many keys with an ID a run created, and how many it destroyed. */
  ghost function CountCreated<K>(es: seq<Event<K>>, id: KeyID): nat {
    if es == [] then 0 else (if es[0].result == Created(id) then 1 else 0) + CountCreated(es[1..], id)
  }

  ghost function CountDestroyed<K>(es: seq<Event<K>>, id: KeyID): nat {
    if es == [] then 0
    else (if es[0].op == Destroy(id) && es[0].result == Destroyed then 1 else 0) + CountDestroyed(es[1..], id)
  }

  /** Every step keeps every key file loadable. */
  lemma StepHealthy<K(!new)>(c: Crypto<K>, d: Directory, op: Op<K>, r: Result, d': Directory)
    requires Lawful(c) && Healthy(c, d) && Step(c, d, op, r, d')
    ensures Healthy(c, d')
    ensures r == Refused(LoadFailed) ==> op.Create? || op.Import?
  {
    forall n | n in d' ensures Loadable(c, d', n) {
      if n in d && d'[n] == d[n] { assert Loadable(c, d, n); }
    }
  }

  lemma StepCounts<K(!new)>(c: Crypto<K>, d: Directory, op: Op<K>, r: Result, d': Directory, id: KeyID)
    requires Lawful(c) && Step(c, d, op, r, d')
    ensures |Bearers(c, d', id)| + (if op == Destroy(id) && r == Destroyed then 1 else 0) ==
            |Bearers(c, d, id)| + (if r == Created(id) then 1 else 0)
  {
    match r
    case Created(_) =>
      var k := if op.Create? then op.generated.value else c.load(op.secret).value;
      LabelRoundTrip(op.keyLabel);
      CreateCounts(c, d, op.keyLabel + SUFFIX, k, id);
    case Destroyed =>
      var n :| Removed(c, d, n, op.id, d');
      DestroyCounts(c, d, n, op.id, id);
    case _ =>
  }

  lemma CreateCounts<K>(c: Crypto<K>, d: Directory, n: string, k: K, id: KeyID)
    requires c.load(c.encode(k)) == Some(k) && n !in d && IsKeyName(n)
    ensures |Bearers(c, d[n := File(c.encode(k))], id)| == |Bearers(c, d, id)| + (if id == IdOf(c, k) then 1 else 0)
  {
    BearersInsert(c, d, n, File(c.encode(k)), id);
    assert n !in Bearers(c, d, id);
  }

  lemma DestroyCounts<K>(c: Crypto<K>, d: Directory, n: string, own: KeyID, id: KeyID)
    requires Bears(c, d, n, own)
    ensures |Bearers(c, d - {n}, id)| == |Bearers(c, d, id)| - (if id == own then 1 else 0)
  {
    BearersRemove(c, d, n, id);
    assert n in Bearers(c, d, id) <==> id == own;
  }

  lemma BearersInsert<K>(c: Crypto<K>, d: Directory, n: string, e: Entry, id: KeyID)
    requires n !in d
    ensures Bearers(c, d[n := e], id) == Bearers(c, d, id) + (if EntryBears(c, n, e, id) then {n} else {})
  {
    var d' := d[n := e];
    forall m ensures m in Bearers(c, d', id) <==> m in Bearers(c, d, id) || (m == n && EntryBears(c, n, e, id)) {
      if m != n { assert Bears(c, d', m, id) <==> Bears(c, d, m, id); }
    }
  }

  lemma BearersRemove<K>(c: Crypto<K>, d: Directory, n: string, id: KeyID)
    ensures Bearers(c, d - {n}, id) == Bearers(c, d, id) - {n}
  {
    var d' := d - {n};
    forall m ensures m in Bearers(c, d', id) <==> m in Bearers(c, d, id) && m != n {
      if m != n { assert Bears(c, d', m, id) <==> Bears(c, d, m, id); }
    }
  }

  /** Conservation over every run, with any number of labels sharing an ID, any iteration order and any
      files in the directory, loadable or not: the files bearing an ID are those there before, plus one
      for each creation, minus one for each destruction of exactly that ID. */
  lemma {:induction false} Conservation<K(!new)>(c: Crypto<K>, d: Directory, es: seq<Event<K>>, id: KeyID)
    requires Lawful(c) && IsRun(c, d, es)
    ensures |Bearers(c, FinalState(d, es), id)| + CountDestroyed(es, id) ==
            |Bearers(c, d, id)| + CountCreated(es, id)
    decreases |es|
  {
    if es != [] {
      StepCounts(c, d, es[0].op, es[0].result, es[0].after, id);
      Conservation(c, es[0].after, es[1..], id);
    }
  }

  lemma {:induction false} RunHealthy<K(!new)>(c: Crypto<K>, d: Directory, es: seq<Event<K>>)
    requires Lawful(c) && Healthy(c, d) && IsRun(c, d, es)
    ensures Healthy(c, FinalState(d, es))
    decreases |es|
  {
    if es != [] {
      StepHealthy(c, d, es[0].op, es[0].result, es[0].after);
      RunHealthy(c, es[0].after, es[1..]);
    }
  }

  /** An event that stored a secret under a label. */
  ghost predicate CreatedAs<K>(c: Crypto<K>, e: Event<K>, keyLabel: string, secret: bytes) {
    && c.load(secret).Some? && e.result == Created(IdOf(c, c.load(secret).value))
    && (e.op == Create(keyLabel, c.load(secret)) || e.op == Import(keyLabel, secret))
  }

  /** Every key file was there before the run with the same content, or an event of the run created it
      under its label with its content. */
  lemma {:induction false} Provenance<K(!new)>(c: Crypto<K>, d: Directory, es: seq<Event<K>>, l: string)
    requires Lawful(c) && IsRun(c, d, es) && IsKeyFile(FinalState(d, es), l + SUFFIX)
    ensures var f := FinalState(d, es)[l + SUFFIX];
            || (l + SUFFIX in d && d[l + SUFFIX] == f)
            || (exists i :: 0 <= i < |es| && CreatedAs(c, es[i], l, f.content))
    decreases |es|
  {
    if es != [] {
      var f := FinalState(d, es)[l + SUFFIX];
      Provenance(c, es[0].after, es[1..], l);
      if i :| 0 <= i < |es[1..]| && CreatedAs(c, es[1..][i], l, f.content) {
        assert CreatedAs(c, es[i + 1], l, f.content);
      } else if !(l + SUFFIX in d && d[l + SUFFIX] == f) {
        StepCreates(c, d, es[0], l);
        assert CreatedAs(c, es[0], l, f.content);
      }
    }
  }

  /** A step that leaves a file it did not find created it. */
  lemma StepCreates<K(!new)>(c: Crypto<K>, d: Directory, e: Event<K>, l: string)
    requires Lawful(c) && Step(c, d, e.op, e.result, e.after)
    requires IsKeyFile(e.after, l + SUFFIX) && !(l + SUFFIX in d && d[l + SUFFIX] == e.after[l + SUFFIX])
    ensures CreatedAs(c, e, l, e.after[l + SUFFIX].content)
  {
    if e.op.Create? || e.op.Import? {
      if e.op.keyLabel != l {
        SameLabel(e.op.keyLabel, l);
        assert false;
      }
    }
  }

  lemma SameLabel(k: string, l: string)
    requires k != l
    ensures k + SUFFIX != l + SUFFIX
  {
    if k + SUFFIX == l + SUFFIX {
      Joined(k, SUFFIX);
      Joined(l, SUFFIX);
      assert false;
    }
  }

  /** After any run, a key that is opened has the ID asked for, lies under its label since before the run
      or since an event of the run created it there, and more keys with its ID were there or created than
      destroyed; an ID reported missing has none left. If all key files loaded at the start, there is no
      third outcome. */
  lemma OpenAfterRun<K(!new)>(c: Crypto<K>, d: Directory, es: seq<Event<K>>, id: KeyID, r: Result)
    requires Lawful(c) && IsRun(c, d, es)
    requires Step(c, FinalState(d, es), Open(id), r, FinalState(d, es))
    ensures r.Opened? ==> |Bearers(c, d, id)| + CountCreated(es, id) > CountDestroyed(es, id)
    ensures r == Refused(NotExist) ==> |Bearers(c, d, id)| + CountCreated(es, id) == CountDestroyed(es, id)
    ensures Healthy(c, d) ==> r.Opened? || r == Refused(NotExist)
    ensures r.Opened? ==> c.load(r.secret).Some? && IdOf(c, c.load(r.secret).value) == id
    ensures r.Opened? ==>
              || (r.keyLabel + SUFFIX in d && d[r.keyLabel + SUFFIX] == File(r.secret))
              || (exists i :: 0 <= i < |es| && CreatedAs(c, es[i], r.keyLabel, r.secret))
  {
    Conservation(c, d, es, id);
    if Healthy(c, d) { RunHealthy(c, d, es); }
    if r.Opened? {
      assert r.keyLabel + SUFFIX in Bearers(c, FinalState(d, es), id);
      Provenance(c, d, es, r.keyLabel);
    }
  }

  /** Entries that are not key files are never touched. */
  lemma {:induction false} ForeignKept<K(!new)>(c: Crypto<K>, d: Directory, es: seq<Event<K>>, n: string)
    requires IsRun(c, d, es) && n in d && !IsKeyFile(d, n)
    ensures n in FinalState(d, es) && FinalState(d, es)[n] == d[n]
    decreases |es|
  {
    if es != [] {
      ForeignKept(c, es[0].after, es[1..], n);
    }
  }
}
