/** The account pool of add-token.ts: initialise, find by account, replace or append, mirror into the primary login. */
module TokenPool {
  import opened Text

  /** The property names the script uses, and any other name. */
  datatype Key =
    | Id | AccessToken | RefreshToken | AccountId | SnakeAccountId | Email | Weight | Priority
    | CreatedAt | UpdatedAt | Expires | CodexOAuth | CodexOAuthPool
    | Other(name: string)

  type Fields = map<Key, Json>

  datatype Json =
    | Null
    | Bool(flag: bool)
    | Number(number: real)
    | String(text: string)
    | List(items: seq<Json>)
    | Object(fields: Fields)

  /** `Number(argv[++i])`: not a number and the infinities are one case here. */
  datatype Numeric = NotFinite | Finite(value: real)

  datatype Args = Args(
    token: Option<string>,
    refresh: Option<string>,
    account: Option<string>,
    email: Option<string>,
    weight: Option<Numeric>,
    priority: Option<Numeric>)

  /** One run of the script: its arguments, the random identifier it draws and the three clock readings. */
  datatype Request = Request(args: Args, uuid: string, created: real, updated: real, expires: real)

  datatype Outcome = Saved | MissingToken | UnreadableConfig | NotAnObject | BrokenPool | BadWeight | BadPriority

  const UNKNOWN := "unknown_account"

  // ---------------------------------------------------------------- reading JSON values

  /** `v.key`; None is `undefined`. */
  function Field(v: Json, key: Key): Option<Json> {
    if v.Object? && key in v.fields then Some(v.fields[key]) else None
  }

  /** `v?.key` */
  function OptionalField(v: Option<Json>, key: Key): Option<Json> {
    if v.Some? then Field(v.value, key) else None
  }

  predicate Truthy(v: Option<Json>) {
    match v
    case None => false
    case Some(Null) => false
    case Some(Bool(flag)) => flag
    case Some(Number(number)) => number != 0.0
    case Some(String(text)) => text != ""
    case Some(_) => true
  }

  predicate Given(s: Option<string>) {
    s.Some? && s.value != ""
  }

  /** A property set to `undefined` is not written to the file. */
  function WithField(fields: Fields, key: Key, v: Option<Json>): Fields {
    if v.Some? then fields[key := v.value] else fields
  }

  // ---------------------------------------------------------------- the pool

  function Legacy(primary: Fields, created: real): Json {
    Object(
      map[Id := String("codex_primary_legacy")]
      + primary
      + map[Weight := Number(1.0), Priority := Number(10.0), CreatedAt := Number(created)])
  }

  /** The pool a run works on: the stored one, or a new one holding the primary login if there is one. */
  function StartPool(config: Fields, created: real): seq<Json> {
    var stored := Field(Object(config), CodexOAuthPool);
    var primary := Field(Object(config), CodexOAuth);
    if stored.Some? && stored.value.List? then stored.value.items
    else if Truthy(OptionalField(primary, AccessToken)) then [Legacy(primary.value.fields, created)]
    else []
  }

  predicate Matches(v: Json, account: string) {
    Field(v, AccountId) == Some(String(account)) || Field(v, SnakeAccountId) == Some(String(account))
  }

  datatype Search = Absent | Found(index: nat) | Failed

  /** `findIndex`: reading a property of `null` fails. */
  function FindFrom(pool: seq<Json>, account: string, i: nat): (s: Search)
    requires i <= |pool|
    ensures s.Found? ==> i <= s.index < |pool|
    decreases |pool| - i
  {
    if i == |pool| then Absent
    else if pool[i].Null? then Failed
    else if Matches(pool[i], account) then Found(i)
    else FindFrom(pool, account, i + 1)
  }

  function Find(pool: seq<Json>, account: string): (s: Search)
    ensures s.Found? ==> s.index < |pool|
  {
    if account == UNKNOWN then Absent else FindFrom(pool, account, 0)
  }

  // ---------------------------------------------------------------- the record

  function Account(args: Args): string {
    if Given(args.account) then args.account.value else UNKNOWN
  }

  function EmailOf(args: Args): string
    requires Given(args.token)
  {
    if Given(args.email) then args.email.value
    else if "eyJ" <= args.token.value then "codex_jwt_user" else "codex_user"
  }

  predicate IsSlugChar(c: char) {
    'A' <= c <= 'Z' || 'a' <= c <= 'z' || '0' <= c <= '9' || c == '_' || c == '-'
  }

  function Slugged(s: string): (r: string)
    ensures |r| == |s|
  {
    if s == "" then "" else [if IsSlugChar(s[0]) then s[0] else '_'] + Slugged(s[1..])
  }

  function TokenId(account: string, uuid: string): string {
    var plain := Slugged(account);
    var slug := if |plain| > 32 then plain[..32] else plain;
    "codex_sh_" + (if slug == "" then "unknown" else slug) + "_" + uuid
  }

  predicate InRange(v: Option<Numeric>, low: real) {
    v.Some? ==> v.value.Finite? && low <= v.value.value <= 1000.0
  }

  function NumberOr(v: Option<Numeric>, otherwise: real): Json {
    Number(if v.Some? && v.value.Finite? then v.value.value else otherwise)
  }

  function RefreshOr(args: Args, otherwise: Option<Json>): Option<Json> {
    if Given(args.refresh) then Some(String(args.refresh.value)) else otherwise
  }

  /** The record a run writes, given the record it replaces. */
  function NewRecord(r: Request, replaced: Option<Json>): Json
    requires Given(r.args.token)
  {
    var account := Account(r.args);
    var id := if replaced.Some? then Field(replaced.value, Id) else Some(String(TokenId(account, r.uuid)));
    var fields := map[
      AccessToken := String(r.args.token.value),
      AccountId := String(account),
      SnakeAccountId := String(account),
      Email := String(EmailOf(r.args)),
      Weight := NumberOr(r.args.weight, 1.0),
      Priority := NumberOr(r.args.priority, 10.0),
      UpdatedAt := Number(r.updated)];
    Object(WithField(WithField(fields, Id, id), RefreshToken,
                     RefreshOr(r.args, OptionalField(replaced, RefreshToken))))
  }

  function NewPrimary(r: Request, previous: Option<Json>): Json
    requires Given(r.args.token)
  {
    var fields := map[
      AccessToken := String(r.args.token.value),
      AccountId := String(Account(r.args)),
      Email := String(EmailOf(r.args)),
      Expires := Number(r.expires + 3600000.0)];
    Object(WithField(fields, RefreshToken, RefreshOr(r.args, OptionalField(previous, RefreshToken))))
  }

  // ---------------------------------------------------------------- one run

  /** How a run ends, from the arguments and the stored configuration alone. */
  function Ending(config: Fields, r: Request): Outcome {
    if !Given(r.args.token) then MissingToken
    else if Find(StartPool(config, r.created), Account(r.args)).Failed? then BrokenPool
    else if !InRange(r.args.weight, 1.0) then BadWeight
    else if !InRange(r.args.priority, 0.0) then BadPriority
    else Saved
  }

  /** The pool a saving run writes. */
  function Upsert(pool: seq<Json>, r: Request): seq<Json>
    requires Given(r.args.token)
  {
    match Find(pool, Account(r.args))
    case Found(i) => pool[i := NewRecord(r, Some(pool[i]))]
    case _ => pool + [NewRecord(r, None)]
  }

  /** The configuration after a run; a run that fails writes nothing. */
  function After(config: Fields, r: Request): Fields {
    if Ending(config, r) != Saved then config
    else config[
      CodexOAuthPool := List(Upsert(StartPool(config, r.created), r))][
      CodexOAuth := NewPrimary(r, Field(Object(config), CodexOAuth))]
  }

  function AfterAll(config: Fields, runs: seq<Request>): Fields
    decreases |runs|
  {
    if runs == [] then config else AfterAll(After(config, runs[0]), runs[1..])
  }

  lemma {:induction false} FindFromMeaning(pool: seq<Json>, account: string, i: nat)
    requires i <= |pool|
    ensures var s := FindFrom(pool, account, i);
            && (s.Found? ==> i <= s.index < |pool| && Matches(pool[s.index], account)
                             && forall j :: i <= j < s.index ==> !Matches(pool[j], account))
            && (s.Absent? ==> forall j :: i <= j < |pool| ==> !Matches(pool[j], account))
            && (s.Failed? ==> exists j :: i <= j < |pool| && pool[j].Null? && forall k :: i <= k < j ==>
                 !Matches(pool[k], account))
    decreases |pool| - i
  {
    hide Matches;
    if i < |pool| && !pool[i].Null? && !Matches(pool[i], account) {
      FindFromMeaning(pool, account, i + 1);
    }
  }

  // ---------------------------------------------------------------- a single run

  ghost predicate Holds(config: Fields, pool: seq<Json>) {
    Field(Object(config), CodexOAuthPool) == Some(List(pool))
  }

  /** The record of a run belongs to the run's account and to no other. */
  lemma NewRecordMatches(r: Request, replaced: Option<Json>, account: string)
    requires Given(r.args.token)
    ensures Matches(NewRecord(r, replaced), account) <==> account == Account(r.args)
  {
    hide NewRecord, Account;
    NewRecordAccount(r, replaced);
  }

  lemma NewRecordAccount(r: Request, replaced: Option<Json>)
    requires Given(r.args.token)
    ensures Field(NewRecord(r, replaced), AccountId) == Some(String(Account(r.args)))
    ensures Field(NewRecord(r, replaced), SnakeAccountId) == Some(String(Account(r.args)))
  {
    hide TokenId, EmailOf, NumberOr, RefreshOr, Account, OptionalField;
  }

  /**
    * A saving run replaces the record of its account where it stands, keeping that record's identifier,
    * and appends one record, under a new identifier, exactly when the account is unknown or has no record.
    */
  lemma UpsertIsLocal(config: Fields, r: Request)
    requires Ending(config, r) == Saved
    ensures var before, account := StartPool(config, r.created), Account(r.args);
            exists pool, i ::
              && Holds(After(config, r), pool)
              && 0 <= i < |pool| && Matches(pool[i], account)
              && (forall j :: 0 <= j < |before| && j != i ==> j < |pool| && pool[j] == before[j])
              && if account == UNKNOWN || (forall j :: 0 <= j < |before| ==> !Matches(before[j], account))
                 then i == |before| && |pool| == |before| + 1
                      && Field(pool[i], Id) == Some(String(TokenId(account, r.uuid)))
                 else i < |before| && |pool| == |before| && Matches(before[i], account)
                      && Field(pool[i], Id) == Field(before[i], Id)
  {
    hide Matches, StartPool, NewRecord, NewPrimary, Account, TokenId, Ending, After, Upsert;
    var pool, i := RunStep(config, r);
    UpsertIdentities(config, r);
    var before, account := StartPool(config, r.created), Account(r.args);
    assert Matches(pool[i], account);
  }

  lemma NewRecordIdentity(r: Request, replaced: Option<Json>)
    requires Given(r.args.token)
    ensures Field(NewRecord(r, replaced), Id)
         == if replaced.Some? then Field(replaced.value, Id) else Some(String(TokenId(Account(r.args), r.uuid)))
    ensures Field(NewRecord(r, replaced), RefreshToken)
         == RefreshOr(r.args, OptionalField(replaced, RefreshToken))
  {
    hide TokenId, EmailOf, NumberOr, RefreshOr, Account, OptionalField;
  }

  lemma NewRecordToken(r: Request, replaced: Option<Json>)
    requires Given(r.args.token)
    ensures Field(NewRecord(r, replaced), AccessToken) == Some(String(r.args.token.value))
  {
    hide TokenId, EmailOf, NumberOr, RefreshOr, Account, OptionalField;
  }

  // ---------------------------------------------------------------- any sequence of runs

  /** No two records belong to the same known account. */
  ghost predicate Unique(pool: seq<Json>) {
    forall account, i, j :: 0 <= i < j < |pool| && Matches(pool[i], account) && Matches(pool[j], account) ==>
        account == UNKNOWN
  }

  /** The stored pool, if there is one, has at most one record for each known account. */
  ghost predicate Settled(config: Fields) {
    forall pool :: Holds(config, pool) ==> Unique(pool)
  }

  lemma StartIsUnique(config: Fields, created: real)
    requires Settled(config)
    ensures Unique(StartPool(config, created))
  {
    hide Matches, Legacy, Truthy;
    var pool := StartPool(config, created);
    if |pool| > 1 {
      assert Holds(config, pool);
    }
  }

  /** What one run does to the stored pool, index by index. */
  lemma RunStep(config: Fields, r: Request) returns (pool: seq<Json>, i: nat)
    requires Ending(config, r) == Saved
    ensures Given(r.args.token)
    ensures Holds(After(config, r), pool) && i < |pool| && pool == Upsert(StartPool(config, r.created), r)
    ensures forall account :: Matches(pool[i], account) <==> account == Account(r.args)
    ensures var before := StartPool(config, r.created);
            && |before| <= |pool| <= |before| + 1
            && (forall j :: 0 <= j < |pool| && j != i ==> j < |before| && pool[j] == before[j])
            && (i < |before| ==> Account(r.args) != UNKNOWN && Matches(before[i], Account(r.args)))
            && (i == |before| && Account(r.args) != UNKNOWN ==>
                forall j :: 0 <= j < |before| ==> !Matches(before[j], Account(r.args)))
  {
    hide Matches, StartPool, NewRecord, NewPrimary;
    var before, account := StartPool(config, r.created), Account(r.args);
    pool := Upsert(before, r);
    FindFromMeaning(before, account, 0);
    var found := Find(before, account);
    i := if found.Found? then found.index else |before|;
    var replaced := if found.Found? then Some(before[i]) else None;
    assert pool[i] == NewRecord(r, replaced);
    forall other
      ensures Matches(pool[i], other) <==> other == account
    {
      NewRecordMatches(r, replaced, other);
    }
  }

  /** Uniqueness survives every run, failed ones included. */
  lemma SettledKept(config: Fields, r: Request)
    requires Settled(config)
    ensures Settled(After(config, r))
  {
    hide Matches, StartPool, Upsert, NewPrimary, Account;
    if Ending(config, r) == Saved {
      hide Ending, After;
      var pool, i := RunStep(config, r);
      StartIsUnique(config, r.created);
      var before, mine := StartPool(config, r.created), Account(r.args);
      forall account, j, k | 0 <= j < k < |pool| && Matches(pool[j], account) && Matches(pool[k], account)
        ensures account == UNKNOWN
      {
        if i == j || i == k {
          assert account == mine;
          var other := if i == j then k else j;
          assert pool[other] == before[other];
        } else {
          assert pool[j] == before[j] && pool[k] == before[k];
        }
      }
    }
  }

  lemma {:induction false} SettledAlways(config: Fields, runs: seq<Request>)
    requires Settled(config)
    ensures Settled(AfterAll(config, runs))
    decreases |runs|
  {
    hide Settled, After;
    if runs != [] {
      SettledKept(config, runs[0]);
      SettledAlways(After(config, runs[0]), runs[1..]);
    }
  }

  /** The record at `k` has this identifier, is the only one of the account and belongs to no other account. */
  ghost predicate OwnsIn(pool: seq<Json>, account: string, k: nat, id: Option<Json>) {
    && k < |pool| && Field(pool[k], Id) == id
    && (forall other :: Matches(pool[k], other) <==> other == account)
    && forall j :: 0 <= j < |pool| && j != k ==> !Matches(pool[j], account)
  }

  ghost predicate Owns(config: Fields, account: string, k: nat, id: Option<Json>) {
    exists pool :: Holds(config, pool) && OwnsIn(pool, account, k, id)
  }

  lemma OwnsKept(config: Fields, r: Request, account: string, k: nat, id: Option<Json>)
    requires account != UNKNOWN && Owns(config, account, k, id)
    ensures Owns(After(config, r), account, k, id)
  {
    hide Matches, NewRecord, NewPrimary, Account, Ending, After, Upsert, StartPool, OwnsIn;
    if Ending(config, r) == Saved {
      UpsertIdentities(config, r);
      var stored :| Holds(config, stored) && OwnsIn(stored, account, k, id);
      StoredIsStart(config, r.created, stored);
      var pool, i := RunStep(config, r);
      OwnsInKept(stored, pool, i, Account(r.args), account, k, id);
      assert Owns(After(config, r), account, k, id);
    } else {
      NothingWritten(config, r);
    }
  }

  /** Changing or adding one record, for an account of its own, leaves every other account its record. */
  lemma OwnsInKept(before: seq<Json>, pool: seq<Json>, i: nat, mine: string, account: string, k: nat, id: Option<Json>)
    requires account != UNKNOWN && OwnsIn(before, account, k, id)
    requires |before| <= |pool| <= |before| + 1 && i < |pool| && (i < |before| ==> |pool| == |before|)
    requires forall other :: Matches(pool[i], other) <==> other == mine
    requires forall j :: 0 <= j < |pool| && j != i ==> j < |before| && pool[j] == before[j]
    requires forall j :: 0 <= j < |before| ==> Field(pool[j], Id) == Field(before[j], Id)
    requires i < |before| ==> Matches(before[i], mine)
    requires i == |before| && mine != UNKNOWN ==> forall j :: 0 <= j < |before| ==> !Matches(before[j], mine)
    ensures OwnsIn(pool, account, k, id)
  {
    hide Matches, Field;
    if i == k {
      assert mine == account;
    } else {
      assert pool[k] == before[k];
      assert Matches(before[k], account);
      assert i < |before| ==> !Matches(before[i], account);
      assert i == |before| && mine != UNKNOWN ==> !Matches(before[k], mine);
      assert mine != account;
    }
    forall j | 0 <= j < |pool| && j != k
      ensures !Matches(pool[j], account)
    {
      if j != i {
        assert pool[j] == before[j];
      }
    }
  }

  lemma StoredIsStart(config: Fields, created: real, pool: seq<Json>)
    requires Holds(config, pool)
    ensures StartPool(config, created) == pool
  {
  }

  lemma NothingWritten(config: Fields, r: Request)
    requires Ending(config, r) != Saved
    ensures After(config, r) == config
  {
    hide Ending, Upsert, NewPrimary, StartPool;
  }

  lemma UpsertIdentities(config: Fields, r: Request)
    requires Ending(config, r) == Saved
    ensures var before, pool := StartPool(config, r.created), Upsert(StartPool(config, r.created), r);
            && |before| <= |pool| <= |before| + 1
            && (forall j :: 0 <= j < |before| ==> Field(pool[j], Id) == Field(before[j], Id))
            && (|pool| > |before| ==> Field(pool[|before|], Id) == Some(String(TokenId(Account(r.args), r.uuid))))
  {
    hide Matches, StartPool, NewRecord, NewPrimary, Account, TokenId;
    var before := StartPool(config, r.created);
    var found := Find(before, Account(r.args));
    NewRecordIdentity(r, if found.Found? then Some(before[found.index]) else None);
  }

  lemma {:induction false} OwnsAlways(config: Fields, runs: seq<Request>, account: string, k: nat, id: Option<Json>)
    requires account != UNKNOWN && Owns(config, account, k, id)
    ensures Owns(AfterAll(config, runs), account, k, id)
    decreases |runs|
  {
    hide Owns, After;
    if runs != [] {
      OwnsKept(config, runs[0], account, k, id);
      OwnsAlways(After(config, runs[0]), runs[1..], account, k, id);
    }
  }

  /** After a known account was added, every later configuration has exactly one record for it, in the same place. */
  lemma OnceAddedStays(config: Fields, r: Request, later: seq<Request>)
    requires Settled(config) && Ending(config, r) == Saved && Account(r.args) != UNKNOWN
    ensures exists k, id ::
              Owns(After(config, r), Account(r.args), k, id)
                  && Owns(AfterAll(After(config, r), later), Account(r.args), k, id)
  {
    hide Matches, StartPool, Upsert, NewPrimary, Account, Ending, After;
    var pool, i := RunStep(config, r);
    SettledKept(config, r);
    assert Unique(pool);
    var id := Field(pool[i], Id);
    assert OwnsIn(pool, Account(r.args), i, id);
    assert Owns(After(config, r), Account(r.args), i, id);
    OwnsAlways(After(config, r), later, Account(r.args), i, id);
  }

  /** `v` stands at `k` and belongs to no known account. */
  ghost predicate Anonymous(config: Fields, k: nat, v: Json) {
    && (exists pool :: Holds(config, pool) && k < |pool| && pool[k] == v)
    && forall account :: Matches(v, account) ==> account == UNKNOWN
  }

  lemma AnonymousKept(config: Fields, r: Request, k: nat, v: Json)
    requires Anonymous(config, k, v)
    ensures Anonymous(After(config, r), k, v)
  {
    hide Matches, NewPrimary, Upsert, Account;
    if Ending(config, r) == Saved {
      hide Ending, After;
      var stored :| Holds(config, stored) && k < |stored| && stored[k] == v;
      assert StartPool(config, r.created) == stored;
      var pool, i := RunStep(config, r);
      assert i != k;
    }
  }

  /** Records without a known account are never merged, replaced or moved. */
  lemma {:induction false} AnonymousAlways(config: Fields, runs: seq<Request>, k: nat, v: Json)
    requires Anonymous(config, k, v)
    ensures Anonymous(AfterAll(config, runs), k, v)
    decreases |runs|
  {
    hide Anonymous, After;
    if runs != [] {
      AnonymousKept(config, runs[0], k, v);
      AnonymousAlways(After(config, runs[0]), runs[1..], k, v);
    }
  }

  /** A run without a known account appends a record that no later run touches. */
  lemma UnknownNeverMerged(config: Fields, r: Request, later: seq<Request>)
    requires Ending(config, r) == Saved && Account(r.args) == UNKNOWN
    ensures exists v :: Anonymous(AfterAll(After(config, r), later), |StartPool(config, r.created)|, v)
                        && Field(v, AccessToken) == Some(String(r.args.token.value))
  {
    hide StartPool, Matches, NewRecord, NewPrimary, TokenId, After, Ending, AfterAll;
    var pool, i := RunStep(config, r);
    var k, v := |StartPool(config, r.created)|, NewRecord(r, None);
    NewRecordToken(r, None);
    assert pool[k] == v;
    assert Anonymous(After(config, r), k, v);
    AnonymousAlways(After(config, r), later, k, v);
  }

  // ---------------------------------------------------------------- the primary login

  const FIRST := Request(Args(Some("ta"), Some("ra"), Some("a"), None, None, None), "u", 0.0, 0.0, 0.0)
  const SECOND := Request(Args(Some("tb"), None, Some("b"), None, None, None), "v", 0.0, 0.0, 0.0)

  /** Without a refresh token, the primary login pairs the new account with the refresh token of the one before. */
  lemma PrimaryCanMixAccounts()
    ensures var primary := Field(Object(AfterAll(map[], [FIRST, SECOND])), CodexOAuth);
            && primary.Some?
            && Field(primary.value, AccountId) == Some(String("b"))
            && Field(primary.value, RefreshToken) == Some(String("ra"))
  {
    hide TokenId, EmailOf, NumberOr, NewRecord, Matches;
    var one := After(map[], FIRST);
    assert Find([], "a") == Absent;
    assert Ending(map[], FIRST) == Saved;
    assert OptionalField(Field(Object(one), CodexOAuth), RefreshToken) == Some(String("ra"));
    var entry := NewRecord(FIRST, None);
    assert StartPool(one, 0.0) == [entry];
    assert Find([entry], "b") == Absent by {
      NewRecordMatches(FIRST, None, "b");
      assert !entry.Null? by { NewRecordToken(FIRST, None); }
    }
    assert Ending(one, SECOND) == Saved;
    assert [FIRST, SECOND][1..] == [SECOND] && [SECOND][1..] == [];
    assert AfterAll(one, [SECOND]) == After(one, SECOND);
  }

  // ---------------------------------------------------------------- the program

  /** `~/.lumi/config.json`: not there, not JSON, or a JSON value. */
  datatype Disk = Missing | Unreadable | Stored(value: Json)

  /** The object a run starts from. Setting a property of `null`, a number or a string fails; an array takes the
      properties, but they are not written with it. */
  function ConfigOf(disk: Disk): Option<Fields> {
    match disk
    case Missing => Some(map[])
    case Unreadable => None
    case Stored(value) =>
      if value.Object? then Some(value.fields) else if value.List? then Some(map[]) else None
  }

  function EndingOn(disk: Disk, r: Request): Outcome {
    if !Given(r.args.token) then MissingToken
    else match ConfigOf(disk)
      case Some(config) => Ending(config, r)
      case None => if disk.Unreadable? then UnreadableConfig else NotAnObject
  }

  function DiskAfter(disk: Disk, r: Request): Disk {
    if EndingOn(disk, r) != Saved || (disk.Stored? && disk.value.List?) then disk
    else Stored(Object(After(ConfigOf(disk).value, r)))
  }

  function DiskAfterAll(disk: Disk, runs: seq<Request>): Disk
    decreases |runs|
  {
    if runs == [] then disk else DiskAfterAll(DiskAfter(disk, runs[0]), runs[1..])
  }

  /** On a stored object the file follows the configurations, failed runs included; so what holds of any sequence of
      configurations holds of the file. */
  lemma {:induction false} FileFollows(config: Fields, runs: seq<Request>)
    ensures DiskAfterAll(Stored(Object(config)), runs) == Stored(Object(AfterAll(config, runs)))
    decreases |runs|
  {
    hide After, Ending;
    if runs != [] {
      OneRun(config, runs[0]);
      FileFollows(After(config, runs[0]), runs[1..]);
    }
  }

  lemma OneRun(config: Fields, r: Request)
    ensures DiskAfter(Stored(Object(config)), r) == Stored(Object(After(config, r)))
  {
    hide StartPool, Upsert, NewPrimary;
  }

  class ConfigFile {
    var disk: Disk

    constructor (disk: Disk)
      ensures this.disk == disk
    {
      this.disk := disk;
    }

    method Run(r: Request) returns (outcome: Outcome)
      modifies this
      ensures outcome == EndingOn(old(disk), r)
      ensures disk == DiskAfter(old(disk), r)
    {
      hide StartPool, Find, Account, NewRecord, NewPrimary, InRange, Field;
      if !Given(r.args.token) {
        return MissingToken;
      }
      if disk.Unreadable? {
        return UnreadableConfig;
      }
      if ConfigOf(disk).None? {
        return NotAnObject;
      }
      var config := ConfigOf(disk).value;
      var pool := StartPool(config, r.created);
      var accountId := Account(r.args);
      var existing := Find(pool, accountId);
      if existing.Failed? {
        return BrokenPool;
      }
      if !InRange(r.args.weight, 1.0) {
        return BadWeight;
      }
      if !InRange(r.args.priority, 0.0) {
        return BadPriority;
      }
      if existing.Found? {
        pool := pool[existing.index := NewRecord(r, Some(pool[existing.index]))];
      } else {
        pool := pool + [NewRecord(r, None)];
      }
      var primary := NewPrimary(r, Field(Object(config), CodexOAuth));
      config := config[CodexOAuthPool := List(pool)][CodexOAuth := primary];
      if !(disk.Stored? && disk.value.List?) {
        disk := Stored(Object(config));
      }
      return Saved;
    }
  }
}
