/**
 The file-backed bootstrap key store: tokens are minted, validated by their hash, revoked and reloaded, over a JSON
 file whose writes may fail. SHA-256 in hexadecimal is a parameter, assumed injective where a statement needs it.
 */
module KeyStore {
  import opened Wrappers
  import opened Text
  import opened Percent

  type Hash = string -> string

  ghost predicate Injective(hash: Hash) {
    forall a: string, b: string :: hash(a) == hash(b) ==> a == b
  }

  /** One stored key. `keyHash` holds the token itself in legacy entries, which have `hashed` false. */
  datatype Entry = Entry(keyHash: string, hashed: bool, revoked: bool, lastUsed: Option<int>, scopes: seq<string>)

  type Keys = map<string, Entry>

  /** The JSON file: missing, not parseable, or a set of keys. */
  datatype File = Absent | Corrupt | Saved(keys: Keys)

  datatype Store = Store(keys: Keys, file: File)

  // ----- loading

  /** The hash an entry stands for once loaded. */
  function HashOf(hash: Hash, e: Entry): string {
    if e.hashed then e.keyHash else hash(e.keyHash)
  }

  function MigrateEntry(hash: Hash, e: Entry): Entry {
    e.(keyHash := HashOf(hash, e), hashed := true)
  }

  function Migrate(hash: Hash, keys: Keys): (r: Keys)
    ensures r.Keys == keys.Keys && forall id :: id in keys ==> r[id] == MigrateEntry(hash, keys[id])
  {
    map id | id in keys :: MigrateEntry(hash, keys[id])
  }

  predicate AllHashed(keys: Keys) {
    forall id :: id in keys ==> keys[id].hashed
  }

  /** `load_from`: the keys in memory, and the file after the attempt to save a migration. */
  function Load(hash: Hash, file: File, saves: bool): Store {
    match file
    case Saved(keys) =>
      var migrated := Migrate(hash, keys);
      Store(migrated, if !AllHashed(keys) && saves then Saved(migrated) else file)
    case _ => Store(map[], file)
  }

  // ----- names

  predicate IdChar(c: char) {
    'a' <= c <= 'z' || 'A' <= c <= 'Z' || '0' <= c <= '9' || c == '-' || c == '_'
  }

  predicate ValidAgentId(id: string) {
    id != "" && forall i :: 0 <= i < |id| ==> IdChar(id[i])
  }

  predicate ScopePart(s: string) {
    s != "" && forall i :: 0 <= i < |s| ==> IdChar(s[i]) || s[i] == '.'
  }

  // A star alone, a service and a star, or a service and a key.
  predicate ValidScope(scope: string) {
    scope == "*" ||
    var (service, key) := CutAt('/', scope);
    key.Some? && ScopePart(service) && (key.value == "*" || ScopePart(key.value))
  }

  // ----- operations

  datatype Event =
    | Generate(id: string, scopes: seq<string>, token: string, saves: bool)
    | Revoke(id: string, saves: bool)
    | Touch(id: string, now: int, saves: bool)
    | Reload(readable: bool, saves: bool)

  datatype Reply = Done | Token(token: string) | Refused

  function Save(s: Store, saves: bool): Store {
    if saves then s.(file := Saved(s.keys)) else s
  }

  function Step(hash: Hash, s: Store, e: Event): (r: (Store, Reply))
  {
    match e
    case Generate(id, scopes, token, saves) =>
      if !ValidAgentId(id) || exists i :: 0 <= i < |scopes| && !ValidScope(scopes[i]) then (s, Refused)
      else if id in s.keys && !s.keys[id].revoked then (s, Refused)
      else
        var s' := s.(keys := s.keys[id := Entry(hash(token), true, false, None, scopes)]);
        (Save(s', saves), if saves then Token(token) else Refused)
    case Revoke(id, saves) =>
      if id !in s.keys || s.keys[id].revoked then (s, Refused)
      else
        var s' := s.(keys := s.keys[id := s.keys[id].(revoked := true)]);
        (Save(s', saves), if saves then Done else Refused)
    case Touch(id, now, saves) =>
      if id !in s.keys then (s, Done)
      else (Save(s.(keys := s.keys[id := s.keys[id].(lastUsed := Some(now))]), saves), Done)
    case Reload(readable, saves) =>
      if readable then (Load(hash, s.file, saves), Done) else (s, Refused)
  }

  /** The agents whose active key a bearer matches. */
  function Matches(hash: Hash, keys: Keys, bearer: string): set<string> {
    var token := Trim(bearer);
    if token == "" then {}
    else set id | id in keys && !keys[id].revoked && keys[id].keyHash == hash(token)
  }

  class FileAgentKeyStore {
    const hash: Hash
    var keys: Keys
    var file: File

    ghost function Value(): Store
      reads this
    {
      Store(keys, file)
    }

    /** A store as a process finds it: keys loaded from the file. */
    constructor (hash: Hash, file: File, saves: bool)
      ensures this.hash == hash && Value() == Load(hash, file, saves)
    {
      this.hash := hash;
      this.file := file;
      this.keys := map[];
      new;
      LoadFrom(saves);
    }

    /** The migration loop visits the entries in whatever order the map yields them. */
    method LoadFrom(saves: bool)
      modifies this
      ensures Value() == Load(hash, old(file), saves)
    {
      keys := map[];
      if file.Saved? {
        var migrated := MigrateAll(file.keys);
        if migrated > 0 && saves {
          file := Saved(keys);
        }
      }
    }

    method MigrateAll(stored: Keys) returns (migrated: nat)
      modifies this`keys
      ensures keys == Migrate(hash, stored)
      ensures migrated == 0 <==> AllHashed(stored)
    {
      hide MigrateEntry;
      var todo := stored.Keys;
      migrated := 0;
      keys := stored;
      while todo != {}
        invariant todo <= stored.Keys && keys.Keys == stored.Keys
        invariant forall id :: id in todo ==> keys[id] == stored[id]
        invariant forall id :: id in stored && id !in todo ==> keys[id] == MigrateEntry(hash, stored[id])
        invariant migrated == 0 <==> forall id :: id in stored && id !in todo ==> stored[id].hashed
        decreases |todo|
      {
        var id :| id in todo;
        MigratedEntry(stored[id]);
        if !keys[id].hashed {
          keys := keys[id := keys[id].(keyHash := hash(keys[id].keyHash), hashed := true)];
          migrated := migrated + 1;
        }
        todo := todo - {id};
      }
    }

    lemma MigratedEntry(e: Entry)
      ensures MigrateEntry(hash, e) == if e.hashed then e else e.(keyHash := hash(e.keyHash), hashed := true)
    {
    }

    /** One operation of a running process. */
    method Perform(e: Event) returns (reply: Reply)
      modifies this
      ensures (Value(), reply) == Step(hash, old(Value()), e)
    {
      hide ValidScope, ValidAgentId, Load;
      match e {
        case Generate(id, scopes, token, saves) =>
          if !ValidAgentId(id) || exists i :: 0 <= i < |scopes| && !ValidScope(scopes[i]) {
            return Refused;
          }
          if id in keys && !keys[id].revoked {
            return Refused;
          }
          keys := keys[id := Entry(hash(token), true, false, None, scopes)];
          if !saves {
            return Refused;
          }
          file := Saved(keys);
          return Token(token);
        case Revoke(id, saves) =>
          if id !in keys || keys[id].revoked {
            return Refused;
          }
          keys := keys[id := keys[id].(revoked := true)];
          if !saves {
            return Refused;
          }
          file := Saved(keys);
          return Done;
        case Touch(id, now, saves) =>
          if id in keys {
            keys := keys[id := keys[id].(lastUsed := Some(now))];
            if saves {
              file := Saved(keys);
            }
          }
          return Done;
        case Reload(readable, saves) =>
          if !readable {
            return Refused;
          }
          LoadFrom(saves);
          return Done;
      }
    }

    /** `validate`: the first active match in the order the map happens to be iterated. */
    method Validate(bearer: string, order: seq<string>) returns (r: Option<string>)
      requires forall id :: id in order <==> id in keys
      ensures r.None? <==> Matches(hash, keys, bearer) == {}
      ensures r.Some? ==> r.value in Matches(hash, keys, bearer)
    {
      hide Trim;
      var token := Trim(bearer);
      if token == "" {
        return None;
      }
      var tokenHash := hash(token);
      for i := 0 to |order|
        invariant forall j :: 0 <= j < i ==> order[j] !in Matches(hash, keys, bearer)
      {
        var id := order[i];
        if !keys[id].revoked && keys[id].keyHash == tokenHash {
          return Some(id);
        }
      }
      assert forall id :: id in Matches(hash, keys, bearer) ==> id in order;
      return None;
    }
  }

  // ----- runs of one process

  function Run(hash: Hash, start: Store, run: seq<Event>): (r: Store)
  {
    if run == [] then start else Step(hash, Run(hash, start, run[..|run| - 1]), run[|run| - 1]).0
  }

  function ReplyAt(hash: Hash, start: Store, run: seq<Event>, k: nat): Reply
    requires k < |run|
  {
    Step(hash, Run(hash, start, run[..k]), run[k]).1
  }

  /** Every hash a store holds, in memory or in its file. */
  ghost predicate Holds(hash: Hash, s: Store, id: string, e: Entry) {
    (id in s.keys && s.keys[id] == e) || (s.file.Saved? && id in s.file.keys && s.file.keys[id] == e)
  }

  /** Tokens are drawn at random: never twice, and none the start already knows. */
  ghost predicate FreshTokens(hash: Hash, start: Store, run: seq<Event>) {
    && (forall i, j :: 0 <= i < j < |run| && run[i].Generate? && run[j].Generate? ==> run[i].token != run[j].token)
    && (forall i, id, e :: 0 <= i < |run| && run[i].Generate? && Holds(hash, start, id, e) ==>
        hash(run[i].token) != HashOf(hash, e))
  }

  /** In memory and in the file, keys with the hash `h` belong to `owner` only, and `dead` says they are all revoked. */
  ghost predicate Confined(hash: Hash, s: Store, h: string, owner: string, dead: bool) {
    && AllHashed(s.keys)
    && forall id, e :: Holds(hash, s, id, e) && HashOf(hash, e) == h ==> id == owner && (dead ==> e.revoked)
  }

  lemma StepConfined(hash: Hash, s: Store, e: Event, h: string, owner: string, dead: bool)
    requires Confined(hash, s, h, owner, dead)
    requires e.Generate? && hash(e.token) == h ==> !dead && e.id == owner
    ensures Confined(hash, Step(hash, s, e).0, h, owner, dead)
  {
    hide ValidScope, ValidAgentId;
    var s' := Step(hash, s, e).0;
    forall id, x | Holds(hash, s', id, x) && HashOf(hash, x) == h ensures id == owner && (dead ==> x.revoked) {
      if !Holds(hash, s, id, x) {
        if e.Reload? {
          assert s.file.Saved? && id in s.file.keys && x == MigrateEntry(hash, s.file.keys[id]);
          assert Holds(hash, s, id, s.file.keys[id]);
        } else if id in s.keys {
          assert Holds(hash, s, id, s.keys[id]);
        }
      }
    }
  }

  /** Revoking with success leaves no active key of that agent anywhere. */
  lemma RevokeKills(hash: Hash, s: Store, e: Event, h: string)
    requires e.Revoke? && Step(hash, s, e).1 == Done && Confined(hash, s, h, e.id, false)
    ensures Confined(hash, Step(hash, s, e).0, h, e.id, true)
  {
    StepConfined(hash, s, e, h, e.id, false);
  }

  lemma {:induction false} TokenConfined(hash: Hash, start: Store, run: seq<Event>, i: nat, k: nat)
    requires Injective(hash) && FreshTokens(hash, start, run) && AllHashed(start.keys)
    requires i < |run| && run[i].Generate? && k <= |run|
    ensures Confined(hash, Run(hash, start, run[..k]), hash(run[i].token), run[i].id, false)
  {
    hide Step, Confined;
    if k == 0 {
      StartConfined(hash, start, run, i);
    } else {
      TokenConfined(hash, start, run, i, k - 1);
      assert run[..k][..k - 1] == run[..k - 1];
      StepConfined(hash, Run(hash, start, run[..k - 1]), run[k - 1], hash(run[i].token), run[i].id, false);
    }
  }

  lemma StartConfined(hash: Hash, start: Store, run: seq<Event>, i: nat)
    requires FreshTokens(hash, start, run) && AllHashed(start.keys) && i < |run| && run[i].Generate?
    ensures Confined(hash, Run(hash, start, run[..0]), hash(run[i].token), run[i].id, false)
  {
  }

  lemma {:induction false} DeadTokenStaysDead(hash: Hash, start: Store, run: seq<Event>, i: nat, j: nat, k: nat)
    requires Injective(hash) && FreshTokens(hash, start, run) && AllHashed(start.keys)
    requires i < j < k <= |run| && run[i].Generate?
    requires run[j].Revoke? && run[j].id == run[i].id && ReplyAt(hash, start, run, j) == Done
    ensures Confined(hash, Run(hash, start, run[..k]), hash(run[i].token), run[i].id, true)
    decreases k
  {
    hide Step, Confined;
    assert run[..k][..k - 1] == run[..k - 1];
    if k == j + 1 {
      TokenConfined(hash, start, run, i, j);
      RevokeKills(hash, Run(hash, start, run[..j]), run[j], hash(run[i].token));
    } else {
      DeadTokenStaysDead(hash, start, run, i, j, k - 1);
      StepConfined(hash, Run(hash, start, run[..k - 1]), run[k - 1], hash(run[i].token), run[i].id, true);
    }
  }

  /**
   Revocation is permanent: in every run of one process, whatever file it started from, once `revoke` of an agent has
   returned success, no bearer that trims to a token minted earlier for that agent validates again, through later mints
   for the agent, touches, failed saves and reloads from the file.
   */
  lemma RevocationIsPermanent(hash: Hash, file: File, saved: bool, run: seq<Event>, i: nat, j: nat, k: nat,
                              bearer: string)
    requires Injective(hash) && FreshTokens(hash, Load(hash, file, saved), run)
    requires i < j < k <= |run| && run[i].Generate?
    requires run[j].Revoke? && run[j].id == run[i].id && ReplyAt(hash, Load(hash, file, saved), run, j) == Done
    requires Trim(bearer) == run[i].token
    ensures Matches(hash, Run(hash, Load(hash, file, saved), run[..k]).keys, bearer) == {}
  {
    hide Step, Run, Trim, Load;
    var start := Load(hash, file, saved);
    MigrationIsStable(hash, file, saved, saved);
    DeadTokenStaysDead(hash, start, run, i, j, k);
    var s := Run(hash, start, run[..k]);
    forall id | id in s.keys && s.keys[id].keyHash == hash(run[i].token) ensures s.keys[id].revoked {
      assert Holds(hash, s, id, s.keys[id]);
    }
  }

  // ----- until then it works

  predicate ActiveIn(keys: Keys, id: string, h: string) {
    id in keys && keys[id].hashed && keys[id].keyHash == h && !keys[id].revoked
  }

  predicate Alive(s: Store, id: string, h: string) {
    ActiveIn(s.keys, id, h) && s.file.Saved? && ActiveIn(s.file.keys, id, h)
  }

  lemma StepKeepsAlive(hash: Hash, s: Store, e: Event, id: string, h: string)
    requires Alive(s, id, h) && !(e.Revoke? && e.id == id)
    ensures Alive(Step(hash, s, e).0, id, h)
  {
    hide ValidScope, ValidAgentId;
  }

  lemma MintIsAlive(hash: Hash, s: Store, e: Event)
    requires e.Generate? && Step(hash, s, e).1.Token?
    ensures Alive(Step(hash, s, e).0, e.id, hash(e.token)) && Step(hash, s, e).1.token == e.token
  {
    hide ValidScope, ValidAgentId;
  }

  /**
   A token whose minting returned success validates, through saves that fail and reloads, until its agent is revoked.
   */
  lemma {:induction false} MintedStaysValid(hash: Hash, start: Store, run: seq<Event>, i: nat, k: nat)
    requires i < k <= |run| && run[i].Generate? && ReplyAt(hash, start, run, i).Token?
    requires forall j :: i < j < k ==> !(run[j].Revoke? && run[j].id == run[i].id)
    requires run[i].token != "" && Trim(run[i].token) == run[i].token
    ensures Alive(Run(hash, start, run[..k]), run[i].id, hash(run[i].token))
    ensures run[i].id in Matches(hash, Run(hash, start, run[..k]).keys, run[i].token)
    decreases k
  {
    hide Step, Trim;
    assert run[..k][..k - 1] == run[..k - 1];
    if k == i + 1 {
      MintIsAlive(hash, Run(hash, start, run[..i]), run[i]);
    } else {
      MintedStaysValid(hash, start, run, i, k - 1);
      StepKeepsAlive(hash, Run(hash, start, run[..k - 1]), run[k - 1], run[i].id, hash(run[i].token));
    }
  }

  // ----- minting

  /** At least one character, all of them ASCII letters, digits, hyphens, underscores, and dots where allowed. */
  predicate Spelled(s: string, dots: bool) {
    s != "" && forall i :: 0 <= i < |s| ==>
      || 'a' <= s[i] <= 'z' || 'A' <= s[i] <= 'Z' || '0' <= s[i] <= '9' || s[i] == '-' || s[i] == '_'
      || (dots && s[i] == '.')
  }

  /** A service, a slash, and a star or a key. */
  predicate ServiceAndKey(scope: string, service: string, key: string) {
    scope == service + "/" + key && Spelled(service, true) && (key == "*" || Spelled(key, true))
  }

  /** All keys, all keys of a service, or one key of a service. */
  ghost predicate ScopeSpelled(scope: string) {
    scope == "*" || exists service, key :: ServiceAndKey(scope, service, key)
  }

  lemma SpelledHasNoSlash(s: string)
    requires Spelled(s, true)
    ensures '/' !in s
  {
    forall i | 0 <= i < |s| ensures s[i] != '/' {
    }
  }

  lemma SpelledIs(s: string)
    ensures ScopePart(s) <==> Spelled(s, true)
    ensures ValidAgentId(s) <==> Spelled(s, false)
  {
  }

  lemma ScopesAreSpelled(scope: string)
    ensures ValidScope(scope) <==> ScopeSpelled(scope)
  {
    hide CutAt, Spelled, ScopePart;
    var (front, back) := CutAt('/', scope);
    CutAtParts('/', scope);
    SpelledIs(front);
    if back.Some? {
      SpelledIs(back.value);
      assert ServiceAndKey(scope, front, back.value) <==>
        ScopePart(front) && (back.value == "*" || ScopePart(back.value));
    }
    forall service, key | ServiceAndKey(scope, service, key) ensures ValidScope(scope) {
      SpelledHasNoSlash(service);
      SpelledIs(service);
      SpelledIs(key);
      assert scope == service + ['/'] + key;
      CutAtFirst('/', service, key);
    }
  }

  /** What can be minted: a well-formed id without an active key, with well-formed scopes. */
  ghost predicate Mintable(s: Store, id: string, scopes: seq<string>) {
    && Spelled(id, false) && (forall i :: 0 <= i < |scopes| ==> ScopeSpelled(scopes[i]))
    && !(id in s.keys && !s.keys[id].revoked)
  }

  /**
   Minting, exactly, in every state: the token is returned if and only if the id and the scopes are well formed, no
   active key has the id in memory, and the save succeeds. Then the key is in memory and in the file; when only the
   save fails it is in memory alone; otherwise nothing changes.
   */
  lemma MintExactly(hash: Hash, s: Store, id: string, scopes: seq<string>, token: string, saves: bool)
    ensures var (s', reply) := Step(hash, s, Generate(id, scopes, token, saves));
      && reply == (if Mintable(s, id, scopes) && saves then Token(token) else Refused)
      && (!Mintable(s, id, scopes) ==> s' == s)
      && (Mintable(s, id, scopes) ==>
            && s'.keys == s.keys[id := Entry(hash(token), true, false, None, scopes)]
            && s'.file == if saves then Saved(s'.keys) else s.file)
  {
    hide ValidScope, ScopeSpelled, Spelled, ValidAgentId;
    SpelledIs(id);
    forall i | 0 <= i < |scopes| ensures ValidScope(scopes[i]) <==> ScopeSpelled(scopes[i]) {
      ScopesAreSpelled(scopes[i]);
    }
  }

  /** After a successful revocation the agent can be given a new token, which validates while the old one does not. */
  lemma MintAfterRevocation(hash: Hash, s: Store, id: string, scopes: seq<string>, stale: string, token: string)
    requires Injective(hash) && Confined(hash, s, hash(stale), id, false) && stale != token
    requires Step(hash, s, Revoke(id, true)).1 == Done
    requires Spelled(id, false) && forall i :: 0 <= i < |scopes| ==> ScopeSpelled(scopes[i])
    requires Trim(token) == token != "" && Trim(stale) == stale
    ensures var revoked := Step(hash, s, Revoke(id, true)).0;
      var (s', reply) := Step(hash, revoked, Generate(id, scopes, token, true));
      reply == Token(token) && id in Matches(hash, s'.keys, token) && Matches(hash, s'.keys, stale) == {}
  {
    hide Trim, ScopeSpelled, ValidScope, ValidAgentId, Confined;
    var revoked := Step(hash, s, Revoke(id, true)).0;
    var mint := Generate(id, scopes, token, true);
    RevokeKills(hash, s, Revoke(id, true), hash(stale));
    MintExactly(hash, revoked, id, scopes, token, true);
    StepConfined(hash, revoked, mint, hash(stale), id, true);
    ConfinedMatchesNothing(hash, Step(hash, revoked, mint).0, stale, id);
  }

  // ----- the other operations

  /**
   An active key is marked revoked, at once in memory and in the file when the save succeeds, which decides the reply.
   */
  lemma RevokeExactly(hash: Hash, s: Store, id: string, saves: bool)
    ensures var (s', reply) := Step(hash, s, Revoke(id, saves));
      && (reply == Done <==> saves && id in s.keys && !s.keys[id].revoked) && (reply == Done || reply == Refused)
      && s'.keys.Keys == s.keys.Keys
      && (forall other :: other in s.keys && other != id ==> s'.keys[other] == s.keys[other])
      && (id in s.keys ==> s'.keys[id] == s.keys[id].(revoked := true))
      && s'.file == if reply == Done then Saved(s'.keys) else s.file
  {
  }

  /** Touching notes the time of use and nothing else, always with success; no token starts or stops to validate. */
  lemma TouchExactly(hash: Hash, s: Store, id: string, now: int, saves: bool, bearer: string)
    ensures var (s', reply) := Step(hash, s, Touch(id, now, saves));
      && reply == Done && s'.keys.Keys == s.keys.Keys
      && (forall other :: other in s.keys && other != id ==> s'.keys[other] == s.keys[other])
      && (id in s.keys ==> s'.keys[id] == s.keys[id].(lastUsed := Some(now)))
      && s'.file == (if id in s.keys && saves then Saved(s'.keys) else s.file)
      && Matches(hash, s'.keys, bearer) == Matches(hash, s.keys, bearer)
  {
    hide Trim;
  }

  /**
   A readable file replaces what is in memory, tokens in the clear exchanged for their hashes, and is rewritten only to
   save such an exchange; a file that is missing or no JSON is an empty store; one that cannot be read changes nothing.
   */
  lemma ReloadExactly(hash: Hash, s: Store, readable: bool, saves: bool)
    ensures var (s', reply) := Step(hash, s, Reload(readable, saves));
      if !readable then s' == s && reply == Refused
      else if !s.file.Saved? then s' == Store(map[], s.file) && reply == Done
      else
        && reply == Done && s'.keys.Keys == s.file.keys.Keys
        && (forall id :: id in s.file.keys ==>
              var e := s.file.keys[id];
              s'.keys[id] == if e.hashed then e
                             else Entry(hash(e.keyHash), true, e.revoked, e.lastUsed, e.scopes))
        && s'.file ==
             if saves && exists id :: id in s.file.keys && !s.file.keys[id].hashed then Saved(s'.keys) else s.file
  {
  }

  // ----- what a revocation is worth

  ghost predicate NoMint(run: seq<Event>, token: string) {
    forall i :: 0 <= i < |run| && run[i].Generate? ==> run[i].token != token
  }

  /** No continuation in which the token is not drawn again lets it validate. */
  ghost predicate ForeverDead(hash: Hash, s: Store, token: string) {
    forall rest :: NoMint(rest, token) ==> Matches(hash, Run(hash, s, rest).keys, token) == {}
  }

  /** The file still has an active key of the agent with the hash, migrated or not. */
  predicate ActiveInFile(hash: Hash, file: File, id: string, h: string) {
    file.Saved? && id in file.keys && !file.keys[id].revoked && HashOf(hash, file.keys[id]) == h
  }

  lemma {:induction false} RunConfined(hash: Hash, s: Store, rest: seq<Event>, token: string, owner: string)
    requires Injective(hash) && NoMint(rest, token) && Confined(hash, s, hash(token), owner, true)
    ensures Confined(hash, Run(hash, s, rest), hash(token), owner, true)
  {
    hide Step, Confined;
    if rest != [] {
      var k := |rest| - 1;
      RunConfined(hash, s, rest[..k], token, owner);
      StepConfined(hash, Run(hash, s, rest[..k]), rest[k], hash(token), owner, true);
    }
  }

  lemma ConfinedMatchesNothing(hash: Hash, s: Store, token: string, owner: string)
    requires Confined(hash, s, hash(token), owner, true) && Trim(token) == token
    ensures Matches(hash, s.keys, token) == {}
  {
    hide Trim;
    forall id | id in s.keys && s.keys[id].keyHash == hash(token) ensures s.keys[id].revoked {
      assert Holds(hash, s, id, s.keys[id]);
    }
  }

  lemma ReloadRevives(hash: Hash, s: Store, id: string, token: string, saves: bool)
    requires ActiveInFile(hash, s.file, id, hash(token)) && Trim(token) == token && token != ""
    ensures id in Matches(hash, Step(hash, s, Reload(true, saves)).0.keys, token)
  {
    hide Trim;
  }

  /**
   What a revocation is worth, exactly, in every state in which the token is the agent's alone: the token is dead for
   good if and only if the revocation found an active key and could save it, or the file held no active key of that
   token.
   */
  lemma RevocationSticks(hash: Hash, s: Store, id: string, token: string, saves: bool)
    requires Injective(hash) && Confined(hash, s, hash(token), id, false) && Trim(token) == token && token != ""
    ensures ForeverDead(hash, Step(hash, s, Revoke(id, saves)).0, token)
       <==> (saves && id in s.keys && !s.keys[id].revoked) || !ActiveInFile(hash, s.file, id, hash(token))
  {
    hide Trim, Matches, Run, Load;
    var s' := Step(hash, s, Revoke(id, saves)).0;
    if ActiveInFile(hash, s'.file, id, hash(token)) {
      ReloadRevives(hash, s', id, token, false);
      var rest := [Reload(true, false)];
      assert NoMint(rest, token);
      RunOne(hash, s', Reload(true, false));
      assert Matches(hash, Run(hash, s', rest).keys, token) != {};
    } else {
      RevokedIsConfined(hash, s, id, token, saves);
      forall rest | NoMint(rest, token) ensures Matches(hash, Run(hash, s', rest).keys, token) == {} {
        RunConfined(hash, s', rest, token, id);
        ConfinedMatchesNothing(hash, Run(hash, s', rest), token, id);
      }
    }
  }

  lemma RunOne(hash: Hash, s: Store, e: Event)
    ensures Run(hash, s, [e]) == Step(hash, s, e).0
  {
    hide Step;
    assert Run(hash, s, []) == s && [e][..0] == [];
  }

  lemma RevokedIsConfined(hash: Hash, s: Store, id: string, token: string, saves: bool)
    requires Confined(hash, s, hash(token), id, false)
    requires !ActiveInFile(hash, Step(hash, s, Revoke(id, saves)).0.file, id, hash(token))
    ensures Confined(hash, Step(hash, s, Revoke(id, saves)).0, hash(token), id, true)
  {
    var s' := Step(hash, s, Revoke(id, saves)).0;
    StepConfined(hash, s, Revoke(id, saves), hash(token), id, false);
    forall other, e | Holds(hash, s', other, e) && HashOf(hash, e) == hash(token) ensures other == id && e.revoked {
    }
  }

  /**
   The same over whole runs: the first revocation of an agent after a successful mint kills the token for good if and
   only if its save succeeded.
   */
  lemma RevocationIsExact(hash: Hash, file: File, saved: bool, run: seq<Event>, i: nat, saves: bool)
    requires Injective(hash) && FreshTokens(hash, Load(hash, file, saved), run)
    requires i < |run| && run[i].Generate? && ReplyAt(hash, Load(hash, file, saved), run, i).Token?
    requires forall j :: i < j < |run| ==> !(run[j].Revoke? && run[j].id == run[i].id)
    requires run[i].token != "" && Trim(run[i].token) == run[i].token
    ensures var s := Run(hash, Load(hash, file, saved), run);
      ForeverDead(hash, Step(hash, s, Revoke(run[i].id, saves)).0, run[i].token) <==> saves
  {
    hide Step, Run, Trim, Load, Matches, ForeverDead, Confined;
    var start := Load(hash, file, saved);
    MigrationIsStable(hash, file, saved, saved);
    assert run[..|run|] == run;
    MintedStaysValid(hash, start, run, i, |run|);
    TokenConfined(hash, start, run, i, |run|);
    RevocationSticks(hash, Run(hash, start, run), run[i].id, run[i].token, saves);
  }

  /**
   A revocation of a working key whose save failed, in every state: the key stops matching, no further `revoke`
   succeeds or changes anything, and the next reload brings the key back.
   */
  lemma FailedRevocationReverts(hash: Hash, s: Store, id: string, token: string, again: bool, saves: bool)
    requires Alive(s, id, hash(token)) && Trim(token) == token && token != ""
    ensures var s' := Step(hash, s, Revoke(id, false)).0;
      && Step(hash, s, Revoke(id, false)).1 == Refused
      && id !in Matches(hash, s'.keys, token)
      && Step(hash, s', Revoke(id, again)) == (s', Refused)
      && id in Matches(hash, Step(hash, s', Reload(true, saves)).0.keys, token)
  {
    hide Trim, Load;
    ReloadRevives(hash, Step(hash, s, Revoke(id, false)).0, id, token, saves);
  }

  /** A run from an empty store in which it happens. */
  lemma FailedRevocationRun(hash: Hash, id: string, token: string)
    requires ValidAgentId(id) && Trim(token) == token && token != ""
    ensures var run := [Generate(id, [], token, true), Revoke(id, false), Revoke(id, true), Reload(true, true)];
      var start := Store(map[], Absent);
      && ReplyAt(hash, start, run, 2) == Refused
      && Matches(hash, Run(hash, start, run[..3]).keys, token) == {}
      && Matches(hash, Run(hash, start, run).keys, token) == {id}
  {
    hide Trim, ValidAgentId;
    var run := [Generate(id, [], token, true), Revoke(id, false), Revoke(id, true), Reload(true, true)];
    var start := Store(map[], Absent);
    assert run[..1][..0] == [] && run[..2][..1] == run[..1] && run[..3][..2] == run[..2] && run[..4] == run;
    var e := Entry(hash(token), true, false, None, []);
    assert Run(hash, start, run[..0]) == start;
    assert Run(hash, start, run[..1]) == Store(map[id := e], Saved(map[id := e]));
    assert Run(hash, start, run[..2]) == Store(map[id := e.(revoked := true)], Saved(map[id := e]));
    assert Run(hash, start, run[..3]) == Run(hash, start, run[..2]);
    assert Migrate(hash, map[id := e]) == map[id := e];
    assert Run(hash, start, run) == Store(map[id := e], Saved(map[id := e]));
  }

  // ----- one answer whatever the order

  /** Every key held, in memory or in the file, is the hash of a token minted for its agent in the run. */
  ghost predicate Grown(hash: Hash, run: seq<Event>, s: Store) {
    forall id, e :: Holds(hash, s, id, e) ==> e.hashed && MintedFor(hash, run, id, e.keyHash)
  }

  ghost predicate MintedFor(hash: Hash, run: seq<Event>, id: string, h: string) {
    exists k :: 0 <= k < |run| && run[k].Generate? && run[k].id == id && hash(run[k].token) == h
  }

  lemma MintedLater(hash: Hash, run: seq<Event>, id: string, h: string)
    requires run != [] && MintedFor(hash, run[..|run| - 1], id, h)
    ensures MintedFor(hash, run, id, h)
  {
    var front := run[..|run| - 1];
    var k :| 0 <= k < |front| && front[k].Generate? && front[k].id == id && hash(front[k].token) == h;
    assert run[k] == front[k];
  }

  lemma {:induction false} RunGrows(hash: Hash, run: seq<Event>)
    ensures Grown(hash, run, Run(hash, Store(map[], Absent), run))
  {
    hide ValidScope, ValidAgentId;
    if run != [] {
      var n := |run| - 1;
      var front, e := run[..n], run[n];
      RunGrows(hash, front);
      var s := Run(hash, Store(map[], Absent), front);
      var s' := Step(hash, s, e).0;
      forall id, x | Holds(hash, s', id, x) ensures x.hashed && MintedFor(hash, run, id, x.keyHash) {
        if Holds(hash, s, id, x) {
          MintedLater(hash, run, id, x.keyHash);
        } else if e.Reload? {
          assert Holds(hash, s, id, s.file.keys[id]);
          MintedLater(hash, run, id, x.keyHash);
        } else if e.Generate? && x.keyHash == hash(e.token) && id == e.id {
          assert run[n].Generate? && run[n].id == id;
        } else {
          assert Holds(hash, s, id, s.keys[id]);
          MintedLater(hash, run, id, x.keyHash);
        }
      }
    }
  }

  /**
   In a store grown from nothing, a bearer matches at most one agent, so `validate` does not depend on the map's order.
   */
  lemma AtMostOneMatch(hash: Hash, run: seq<Event>, bearer: string, a: string, b: string)
    requires Injective(hash) && FreshTokens(hash, Store(map[], Absent), run)
    requires var keys := Run(hash, Store(map[], Absent), run).keys;
      a in Matches(hash, keys, bearer) && b in Matches(hash, keys, bearer)
    ensures a == b
  {
    hide Run, Trim;
    RunGrows(hash, run);
    var s := Run(hash, Store(map[], Absent), run);
    assert Holds(hash, s, a, s.keys[a]) && Holds(hash, s, b, s.keys[b]);
    var h := s.keys[a].keyHash;
    var i :| 0 <= i < |run| && run[i].Generate? && run[i].id == a && hash(run[i].token) == h;
    var j :| 0 <= j < |run| && run[j].Generate? && run[j].id == b && hash(run[j].token) == h;
    assert run[i].token == run[j].token;
  }

  // ----- legacy files

  /**
   Loading gives the same keys whether or not the migration could be saved, and loading again hashes nothing twice.
   */
  lemma MigrationIsStable(hash: Hash, file: File, saves: bool, again: bool)
    ensures Load(hash, file, saves).keys == Load(hash, file, !saves).keys
    ensures Load(hash, Load(hash, file, saves).file, again).keys == Load(hash, file, saves).keys
    ensures AllHashed(Load(hash, file, saves).keys)
  {
    if file.Saved? {
      var m := Migrate(hash, file.keys);
      assert Migrate(hash, m) == m;
    }
  }

  /**
   An active legacy token keeps working after migration, for some bearer, exactly when it is not empty and has no white
   space around it.
   */
  lemma LegacyTokenValidates(hash: Hash, file: File, saves: bool, id: string)
    requires Injective(hash) && file.Saved? && id in file.keys && !file.keys[id].hashed && !file.keys[id].revoked
    ensures var token := file.keys[id].keyHash;
      (exists bearer :: id in Matches(hash, Load(hash, file, saves).keys, bearer)) <==>
          token != "" && Trim(token) == token
    ensures var token := file.keys[id].keyHash;
      token != "" && Trim(token) == token ==> id in Matches(hash, Load(hash, file, saves).keys, token)
  {
    hide Trim, Load, Matches;
    var token := file.keys[id].keyHash;
    var keys := Load(hash, file, saves).keys;
    forall bearer | id in Matches(hash, keys, bearer) ensures token != "" && Trim(token) == token {
      LegacyMatch(hash, file, saves, id, bearer);
      TrimTwice(bearer);
    }
    LegacyMatch(hash, file, saves, id, token);
  }

  lemma LegacyMatch(hash: Hash, file: File, saves: bool, id: string, bearer: string)
    requires Injective(hash) && file.Saved? && id in file.keys && !file.keys[id].hashed && !file.keys[id].revoked
    ensures id in Matches(hash, Load(hash, file, saves).keys, bearer) <==>
      Trim(bearer) != "" && Trim(bearer) == file.keys[id].keyHash
  {
    hide Trim;
    assert Load(hash, file, saves).keys[id] == MigrateEntry(hash, file.keys[id]);
  }

  lemma TrimTwice(s: string)
    ensures Trim(Trim(s)) == Trim(s)
  {
    hide Trim;
    TrimIdempotent(Trim(s));
  }
}
