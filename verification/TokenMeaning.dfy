/** What a run of add-token.ts does, said on the values of the configuration alone: the list it starts from, the record
    and the login it writes, and how it ends. */
module TokenMeaning {
  import opened Text
  import opened TokenPool

  // ---------------------------------------------------------------- the arguments

  /** The account of a run: the one given, if it is not empty. */
  ghost predicate RunsFor(args: Args, account: string) {
    || (args.account == Some(account) && account != "")
    || (account == "unknown_account" && (args.account == None || args.account == Some("")))
  }

  ghost predicate EmailIs(args: Args, email: string) {
    || (args.email == Some(email) && email != "")
    || ((args.email == None || args.email == Some(""))
        && email == if exists rest :: args.token == Some("eyJ" + rest) then "codex_jwt_user" else "codex_user")
  }

  ghost predicate IsToken(token: Option<string>) {
    token != None && token != Some("")
  }

  /** A number given is used; without one, the default is. */
  ghost predicate NumberIs(given: Option<Numeric>, otherwise: real, n: real) {
    given == Some(Finite(n)) || (given == None && n == otherwise)
  }

  ghost predicate Within(given: Option<Numeric>, low: real) {
    given == None || exists n: real :: given == Some(Finite(n)) && low <= n <= 1000.0
  }

  /** Characters outside `[A-Za-z0-9_-]` become underscores. */
  ghost predicate IsMasked(c: char, d: char) {
    d == if 'A' <= c <= 'Z' || 'a' <= c <= 'z' || '0' <= c <= '9' || c == '_' || c == '-' then c else '_'
  }

  /** The first 32 characters of the account, masked. */
  ghost predicate IsSlug(account: string, slug: string) {
    && |slug| == (if |account| < 32 then |account| else 32)
    && forall i :: 0 <= i < |slug| ==> IsMasked(account[i], slug[i])
  }

  ghost predicate IsNewId(id: Option<Json>, account: string, uuid: string) {
    exists slug :: IsSlug(account, slug) && id == Some(String("codex_sh_" + slug + "_" + uuid))
  }

  lemma AccountMeans(args: Args, account: string)
    ensures RunsFor(args, account) <==> Account(args) == account
    ensures RunsFor(args, account) ==> account != ""
  {
  }

  lemma GivenMeans(token: Option<string>)
    ensures Given(token) <==> IsToken(token)
  {
  }

  lemma EmailMeans(args: Args)
    requires Given(args.token)
    ensures EmailIs(args, EmailOf(args))
  {
    var token := args.token.value;
    if "eyJ" <= token {
      assert token == "eyJ" + token[3..];
    }
  }

  lemma WithinMeans(given: Option<Numeric>, low: real)
    ensures InRange(given, low) <==> Within(given, low)
  {
  }

  lemma NumberMeans(given: Option<Numeric>, low: real, otherwise: real) returns (n: real)
    requires InRange(given, low)
    ensures NumberOr(given, otherwise) == Number(n) && NumberIs(given, otherwise, n)
  {
    n := if given.Some? then given.value.value else otherwise;
  }

  lemma {:induction false} SluggedMeans(s: string, i: nat)
    requires i < |s|
    ensures IsMasked(s[i], Slugged(s)[i])
  {
    if i > 0 {
      SluggedMeans(s[1..], i - 1);
    }
  }

  lemma TokenIdMeans(account: string, uuid: string)
    requires account != ""
    ensures IsNewId(Some(String(TokenId(account, uuid))), account, uuid)
  {
    hide IsSlugChar, Slugged, IsMasked;
    var plain := Slugged(account);
    var slug := if |plain| > 32 then plain[..32] else plain;
    forall i | 0 <= i < |slug|
      ensures IsMasked(account[i], slug[i])
    {
      SluggedMeans(account, i);
    }
    assert IsSlug(account, slug);
    assert TokenId(account, uuid) == "codex_sh_" + slug + "_" + uuid;
  }

  // ---------------------------------------------------------------- the list a run starts from

  ghost predicate IsTruthy(v: Json) {
    v != Null && v != Bool(false) && v != Number(0.0) && v != String("")
  }

  ghost predicate HasList(config: Fields) {
    CodexOAuthPool in config && config[CodexOAuthPool].List?
  }

  /** `login` is the stored primary login, and it has an access token. */
  ghost predicate HasLogin(config: Fields, login: Fields) {
    && CodexOAuth in config && config[CodexOAuth] == Object(login)
    && AccessToken in login && IsTruthy(login[AccessToken])
  }

  /** The identifier under which a login is moved into the pool: its own, if it has one. */
  ghost function MovedId(login: Fields): Json {
    if Id in login then login[Id] else String("codex_primary_legacy")
  }

  /** The login as a record: everything it had, under its identifier, with weight 1, priority 10 and the time. */
  ghost predicate IsMoved(v: Json, login: Fields, created: real) {
    && v.Object? && v.fields.Keys == login.Keys + {Id, Weight, Priority, CreatedAt}
    && v.fields[Id] == MovedId(login)
    && v.fields[Weight] == Number(1.0) && v.fields[Priority] == Number(10.0) && v.fields[CreatedAt] == Number(created)
    && forall key :: key in login && key !in {Weight, Priority, CreatedAt} ==> v.fields[key] == login[key]
  }

  /** The stored list; without one the login, if there is one; else nothing. */
  ghost predicate IsStart(config: Fields, created: real, before: seq<Json>) {
    if HasList(config) then config[CodexOAuthPool] == List(before)
    else if exists login :: HasLogin(config, login) then
      |before| == 1 && exists login :: HasLogin(config, login) && IsMoved(before[0], login, created)
    else before == []
  }

  lemma LegacyMeans(login: Fields, created: real)
    ensures IsMoved(Legacy(login, created), login, created)
  {
    var named := map[Id := String("codex_primary_legacy")] + login;
    var rest := map[Weight := Number(1.0), Priority := Number(10.0), CreatedAt := Number(created)];
    assert Legacy(login, created).fields == named + rest;
    assert named.Keys == login.Keys + {Id} && rest.Keys == {Weight, Priority, CreatedAt};
    assert named[Id] == MovedId(login);
  }

  lemma StartMeans(config: Fields, created: real)
    ensures IsStart(config, created, StartPool(config, created))
  {
    hide Legacy, IsMoved;
    if !HasList(config) {
      if login :| HasLogin(config, login) {
        LegacyMeans(login, created);
        assert StartPool(config, created) == [Legacy(login, created)];
      } else if CodexOAuth in config && config[CodexOAuth].Object? {
        assert !HasLogin(config, config[CodexOAuth].fields);
      }
    }
  }

  // ---------------------------------------------------------------- the record and the login a run writes

  ghost predicate BelongsTo(v: Json, account: string) {
    && v.Object?
    && ((AccountId in v.fields && v.fields[AccountId] == String(account))
        || (SnakeAccountId in v.fields && v.fields[SnakeAccountId] == String(account)))
  }

  lemma MatchesMean(v: Json, account: string)
    ensures Matches(v, account) <==> BelongsTo(v, account)
  {
  }

  /** `v.key` is `value`, and is not there for `undefined`. */
  ghost predicate Keeps(fields: Fields, key: Key, value: Option<Json>) {
    if value.Some? then key in fields && fields[key] == value.value else key !in fields
  }

  /** The refresh token given, if it is not empty, and else the old one. */
  ghost predicate RefreshIs(args: Args, old': Option<Json>, fields: Fields) {
    Keeps(fields, RefreshToken, if IsToken(args.refresh) then Some(String(args.refresh.value)) else old')
  }

  /** The record of a run, under this identifier, with this refresh token when none is given; it has nothing else. */
  ghost predicate IsEntry(v: Json, r: Request, account: string, id: Option<Json>, refresh: Option<Json>) {
    && v.Object? && RefreshIs(r.args, refresh, v.fields) && Keeps(v.fields, Id, id)
    && v.fields.Keys - {Id, RefreshToken} ==
       {AccessToken, AccountId, SnakeAccountId, Email, Weight, Priority, UpdatedAt}
    && Some(v.fields[AccessToken]) == (if r.args.token.Some? then Some(String(r.args.token.value)) else None)
    && v.fields[AccountId] == v.fields[SnakeAccountId] == String(account)
    && v.fields[Email].String? && EmailIs(r.args, v.fields[Email].text)
    && v.fields[Weight].Number? && NumberIs(r.args.weight, 1.0, v.fields[Weight].number)
    && v.fields[Priority].Number? && NumberIs(r.args.priority, 10.0, v.fields[Priority].number)
    && v.fields[UpdatedAt] == Number(r.updated)
  }

  /** The login of a run: an hour to live, and the login before it lends its refresh token when none is given. */
  ghost predicate IsLogin(v: Json, r: Request, account: string, refresh: Option<Json>) {
    && v.Object? && RefreshIs(r.args, refresh, v.fields)
    && v.fields.Keys - {RefreshToken} == {AccessToken, AccountId, Email, Expires}
    && Some(v.fields[AccessToken]) == (if r.args.token.Some? then Some(String(r.args.token.value)) else None)
    && v.fields[AccountId] == String(account)
    && v.fields[Email].String? && EmailIs(r.args, v.fields[Email].text)
    && v.fields[Expires] == Number(r.expires + 3600000.0)
  }

  /** The value of a property, if the object has it. */
  ghost function At(v: Option<Json>, key: Key): Option<Json> {
    if v.Some? && v.value.Object? && key in v.value.fields then Some(v.value.fields[key]) else None
  }

  lemma EntryMeans(r: Request, account: string, replaced: Option<Json>)
    requires Given(r.args.token) && RunsFor(r.args, account)
    requires InRange(r.args.weight, 1.0) && InRange(r.args.priority, 0.0)
    ensures replaced.Some? ==>
              IsEntry(NewRecord(r, replaced), r, account, At(replaced, Id), At(replaced, RefreshToken))
    ensures replaced.None? ==>
              exists id :: IsNewId(id, account, r.uuid) && IsEntry(NewRecord(r, None), r, account, id, None)
  {
    hide TokenId, EmailOf, NumberOr, Account, EmailIs, IsNewId, NumberIs, InRange;
    AccountMeans(r.args, account);
    GivenMeans(r.args.refresh);
    EmailMeans(r.args);
    var w := NumberMeans(r.args.weight, 1.0, 1.0);
    var p := NumberMeans(r.args.priority, 0.0, 10.0);
    TokenIdMeans(account, r.uuid);
    var v := NewRecord(r, replaced);
    assert v.fields.Keys - {Id, RefreshToken} ==
           {AccessToken, AccountId, SnakeAccountId, Email, Weight, Priority, UpdatedAt};
  }

  lemma LoginMeans(r: Request, account: string, previous: Option<Json>)
    requires Given(r.args.token) && RunsFor(r.args, account)
    ensures IsLogin(NewPrimary(r, previous), r, account, At(previous, RefreshToken))
  {
    hide EmailOf, Account, EmailIs;
    AccountMeans(r.args, account);
    GivenMeans(r.args.refresh);
    EmailMeans(r.args);
    var v := NewPrimary(r, previous);
    assert v.fields.Keys - {RefreshToken} == {AccessToken, AccountId, Email, Expires};
  }

  // ---------------------------------------------------------------- a run

  /** One record, the one at `i`, is new or in place of another of its account, and no other changes. */
  ghost predicate IsUpsert(before: seq<Json>, pool: seq<Json>, i: nat, r: Request, account: string) {
    && i < |pool|
    && (forall j :: 0 <= j < |before| && j != i ==> j < |pool| && pool[j] == before[j])
    && if account == "unknown_account" || forall j :: 0 <= j < |before| ==> !BelongsTo(before[j], account)
       then
         && i == |before| && |pool| == |before| + 1
         && exists id :: IsNewId(id, account, r.uuid) && IsEntry(pool[i], r, account, id, None)
       else
         && i < |before| && |pool| == |before|
         && BelongsTo(before[i], account) && (forall j :: 0 <= j < i ==> !BelongsTo(before[j], account))
         && IsEntry(pool[i], r, account, At(Some(before[i]), Id), At(Some(before[i]), RefreshToken))
  }

  ghost predicate IsAfter(config: Fields, r: Request, account: string, pool: seq<Json>, config': Fields) {
    && config'.Keys == config.Keys + {CodexOAuthPool, CodexOAuth}
    && config'[CodexOAuthPool] == List(pool)
    && IsLogin(config'[CodexOAuth], r, account, At(At(Some(Object(config)), CodexOAuth), RefreshToken))
    && forall key :: key in config && key != CodexOAuthPool && key != CodexOAuth ==> config'[key] == config[key]
  }

  lemma UpsertMeans(before: seq<Json>, r: Request, account: string) returns (i: nat)
    requires Given(r.args.token) && RunsFor(r.args, account) && !Find(before, account).Failed?
    requires InRange(r.args.weight, 1.0) && InRange(r.args.priority, 0.0)
    ensures IsUpsert(before, Upsert(before, r), i, r, account)
  {
    hide NewRecord, Matches, BelongsTo, IsEntry, IsNewId, FindFrom, InRange, RunsFor;
    AccountMeans(r.args, account);
    FindFromMeaning(before, account, 0);
    forall j | 0 <= j < |before|
      ensures Matches(before[j], account) <==> BelongsTo(before[j], account)
    {
      MatchesMean(before[j], account);
    }
    var found := Find(before, account);
    i := if found.Found? then found.index else |before|;
    EntryMeans(r, account, if found.Found? then Some(before[i]) else None);
  }

  /** A saving run, told without the functions that compute it: what it starts from, the one record it writes, and the
      login; everything else in the file stays. */
  lemma SavingRun(config: Fields, r: Request, account: string) returns (before: seq<Json>, pool: seq<Json>, i: nat)
    requires Ending(config, r) == Saved && RunsFor(r.args, account)
    ensures IsStart(config, r.created, before)
    ensures IsUpsert(before, pool, i, r, account)
    ensures IsAfter(config, r, account, pool, After(config, r))
  {
    hide StartPool, Upsert, NewPrimary, IsStart, IsUpsert, IsLogin, Find, InRange, RunsFor;
    AccountMeans(r.args, account);
    before := StartPool(config, r.created);
    StartMeans(config, r.created);
    pool := Upsert(before, r);
    i := UpsertMeans(before, r, account);
    LoginMeans(r, account, Field(Object(config), CodexOAuth));
  }

  /** The stored pool after a run. */
  ghost predicate Leaves(config: Fields, r: Request, pool: seq<Json>) {
    var config' := After(config, r);
    CodexOAuthPool in config' && config'[CodexOAuthPool] == List(pool)
  }

  /** Without a list, the stored login is the first record of the new pool, and the run's record, for another account or
      for none, is the second. */
  lemma LoginIsMoved(config: Fields, r: Request, account: string, login: Fields)
    requires Ending(config, r) == Saved && RunsFor(r.args, account)
    requires !HasList(config) && HasLogin(config, login)
    requires account == "unknown_account" || !BelongsTo(Object(login), account)
    ensures exists first, second, id ::
              && Leaves(config, r, [first, second]) && IsMoved(first, login, r.created)
              && IsNewId(id, account, r.uuid) && IsEntry(second, r, account, id, None)
  {
    hide Ending, After, RunsFor, IsMoved, IsEntry, IsNewId, IsLogin, BelongsTo;
    var before, pool, i := SavingRun(config, r, account);
    MovedBelongs(before[0], login, r.created, account);
    assert pool == [before[0], pool[1]];
  }

  /** For the login's own account there is one record, under the identifier the login is moved with. */
  lemma LoginIsReplaced(config: Fields, r: Request, account: string, login: Fields)
    requires Ending(config, r) == Saved && RunsFor(r.args, account)
    requires !HasList(config) && HasLogin(config, login)
    requires account != "unknown_account" && BelongsTo(Object(login), account)
    ensures exists only ::
              Leaves(config, r, [only])
                  && IsEntry(only, r, account, Some(MovedId(login)), At(Some(Object(login)), RefreshToken))
  {
    hide Ending, After, RunsFor, IsMoved, IsEntry, IsNewId, IsLogin, BelongsTo, MovedId;
    var before, pool, i := SavingRun(config, r, account);
    MovedBelongs(before[0], login, r.created, account);
    assert pool == [pool[0]];
  }

  lemma MovedBelongs(v: Json, login: Fields, created: real, account: string)
    requires IsMoved(v, login, created)
    ensures BelongsTo(v, account) <==> BelongsTo(Object(login), account)
    ensures At(Some(v), Id) == Some(MovedId(login))
    ensures At(Some(v), RefreshToken) == At(Some(Object(login)), RefreshToken)
  {
  }

  /** Without a list and without a login, the run's record is alone. */
  lemma NoLoginToMove(config: Fields, r: Request, account: string)
    requires Ending(config, r) == Saved && RunsFor(r.args, account)
    requires !HasList(config) && forall login :: !HasLogin(config, login)
    ensures exists only, id ::
              Leaves(config, r, [only]) && IsNewId(id, account, r.uuid) && IsEntry(only, r, account, id, None)
  {
    hide Ending, After, RunsFor, IsEntry, IsNewId, IsLogin, BelongsTo;
    var before, pool, i := SavingRun(config, r, account);
    assert pool == [pool[0]];
  }

  /** The login repeats the written record's token, account and e-mail. Its refresh token is the record's exactly when
      one was given, or when the old login and the replaced record had the same one, or neither any. */
  lemma PrimaryMirrorsExactly(config: Fields, r: Request, account: string)
      returns (before: seq<Json>, pool: seq<Json>, i: nat)
    requires Ending(config, r) == Saved && RunsFor(r.args, account)
    ensures IsStart(config, r.created, before) && IsUpsert(before, pool, i, r, account) && Leaves(config, r, pool)
    ensures var login, entry := At(Some(Object(After(config, r))), CodexOAuth), Some(pool[i]);
            var replaced := if i < |before| then Some(before[i]) else None;
            && login.Some?
            && At(login, AccessToken) == At(entry, AccessToken) && At(login, AccountId) == At(entry, AccountId)
            && At(login, Email) == At(entry, Email)
            && (At(login, RefreshToken) == At(entry, RefreshToken) <==>
                || IsToken(r.args.refresh)
                || At(At(Some(Object(config)), CodexOAuth), RefreshToken) == At(replaced, RefreshToken))
  {
    hide Ending, After, RunsFor, IsStart, IsNewId, BelongsTo, EmailIs, NumberIs;
    before, pool, i := SavingRun(config, r, account);
    assert Leaves(config, r, pool);
    SameEmail(r.args);
  }

  lemma SameEmail(args: Args)
    ensures forall a, b :: EmailIs(args, a) && EmailIs(args, b) ==> a == b
  {
  }

  // ---------------------------------------------------------------- how a run ends

  /** A `null` in the list before the first record of the account; without a known account the list is not searched. */
  ghost predicate IsBroken(before: seq<Json>, account: string) {
    && account != "unknown_account"
    && exists i :: 0 <= i < |before| && before[i] == Null && forall j :: 0 <= j < i ==> !BelongsTo(before[j], account)
  }

  /** How a run ends, the first failure deciding. */
  lemma EndingMeans(config: Fields, r: Request, account: string) returns (before: seq<Json>)
    requires RunsFor(r.args, account)
    ensures IsStart(config, r.created, before)
    ensures Ending(config, r) ==
            if !IsToken(r.args.token) then MissingToken
            else if IsBroken(before, account) then BrokenPool
            else if !Within(r.args.weight, 1.0) then BadWeight
            else if !Within(r.args.priority, 0.0) then BadPriority
            else Saved
  {
    hide StartPool, IsStart, Find, InRange, Within, Given, IsToken, IsBroken, RunsFor;
    before := StartPool(config, r.created);
    StartMeans(config, r.created);
    AccountMeans(r.args, account);
    GivenMeans(r.args.token);
    BrokenMeans(before, account);
    WithinMeans(r.args.weight, 1.0);
    WithinMeans(r.args.priority, 0.0);
  }

  lemma BrokenMeans(before: seq<Json>, account: string)
    ensures Find(before, account).Failed? <==> IsBroken(before, account)
  {
    hide Matches, BelongsTo, FindFrom;
    FindFromMeaning(before, account, 0);
    forall j | 0 <= j < |before|
      ensures Matches(before[j], account) <==> BelongsTo(before[j], account)
      ensures before[j] == Null ==> !Matches(before[j], account)
    {
      MatchesMean(before[j], account);
      NullIsNobody(account);
    }
    if account != UNKNOWN && IsBroken(before, account) {
      var i :| 0 <= i < |before| && before[i] == Null && forall j :: 0 <= j < i ==> !BelongsTo(before[j], account);
      FailsAtNull(before, account, 0, i);
    }
  }

  lemma NullIsNobody(account: string)
    ensures !Matches(Null, account)
  {
  }

  lemma {:induction false} FailsAtNull(pool: seq<Json>, account: string, from: nat, i: nat)
    requires from <= i < |pool| && pool[i] == Null && forall j :: from <= j < i ==> !Matches(pool[j], account)
    ensures FindFrom(pool, account, from).Failed?
    decreases i - from
  {
    hide Matches;
    if from < i {
      FailsAtNull(pool, account, from + 1, i);
    }
  }

  /** The file: a missing one is an empty object; one that is not JSON, or neither an object nor a list, stops the run;
      a list is read as an empty object and written back as it was. */
  lemma FileMeans(disk: Disk, r: Request)
    ensures disk == Missing ==>
              && EndingOn(disk, r) == Ending(map[], r)
              && DiskAfter(disk, r) == if EndingOn(disk, r) == Saved then Stored(Object(After(map[], r))) else Missing
    ensures forall config :: disk == Stored(Object(config)) ==>
              EndingOn(disk, r) == Ending(config, r) && DiskAfter(disk, r) == Stored(Object(After(config, r)))
    ensures forall items :: disk == Stored(List(items)) ==> EndingOn(disk, r) == Ending(map[], r)
    ensures !IsToken(r.args.token) ==> EndingOn(disk, r) == MissingToken
    ensures IsToken(r.args.token) && disk == Unreadable ==> EndingOn(disk, r) == UnreadableConfig
    ensures IsToken(r.args.token) && disk.Stored? && !disk.value.Object? && !disk.value.List? ==>
              EndingOn(disk, r) == NotAnObject
    ensures EndingOn(disk, r) != Saved || (disk.Stored? && disk.value.List?) ==> DiskAfter(disk, r) == disk
  {
    hide StartPool, Find, Upsert, NewPrimary, InRange, Account;
    GivenMeans(r.args.token);
  }
}
