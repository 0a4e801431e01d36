/**
  The user store: user records reached through the hash table by their own usernames.
 */
module UserHandler {
  import opened Buckets
  import opened Khash
  import opened UserRecord

  /** "anonymous" */
  const ANONYMOUS: CString := [97, 110, 111, 110, 121, 109, 111, 117, 115]

  const MAX_USER_COUNT := 255

  /** A char* argument. */
  datatype Text = Null | Chars(s: CString)

  datatype User = User(username: Key, password: Key, admin: bool)

  type Users = map<Key, User>

  /** heap is what malloc returned for the new record. */
  datatype Op = Add(username: Text, password: Text, admin: bool, heap: Record) | Remove(username: Text)

  /** A record as the rest of the program reads it. */
  function Described(m: Record): User {
    User(CStr(m, 0), CStr(m, PASSWORD_AT), m[ADMIN_AT] != 0)
  }

  /** The user that adding a name and a password in fact stores, under the name it holds then. */
  function Stored(username: CString, password: CString, admin: bool, heap: Record): User
    requires FitsRecord(username, password)
  {
    Described(Filled(username, password, admin, heap))
  }

  predicate Blank(t: Text) {
    t.Null? || t.s == []
  }

  /** Adding succeeds for a new, non-blank name while there is room. */
  predicate Addable(users: Users, username: Text, password: Text) {
    !Blank(username) && !Blank(password) && |users| < MAX_USER_COUNT && username.s !in users
  }

  predicate Removable(users: Users, username: Text) {
    !Blank(username) && username.s != ANONYMOUS && username.s in users
  }

  /** The text arguments of an operation stay inside a record when copied. */
  predicate OpFits(op: Op) {
    op.Add? && op.username.Chars? && op.password.Chars? ==> FitsRecord(op.username.s, op.password.s)
  }

  function Apply(users: Users, op: Op): Users
    requires OpFits(op)
  {
    match op
    case Add(u, p, a, heap) =>
      if Addable(users, u, p) then
        var record := Stored(u.s, p.s, a, heap);
        users[record.username := record]
      else users
    case Remove(u) => if Removable(users, u) then users - {u.s} else users
  }

  function ApplyAll(users: Users, ops: seq<Op>): Users
    requires forall op :: op in ops ==> OpFits(op)
  {
    if ops == [] then users else Apply(ApplyAll(users, ops[..|ops| - 1]), ops[|ops| - 1])
  }

  const INITIAL: Users := map[ANONYMOUS := User(ANONYMOUS, ANONYMOUS, false)]

  ghost predicate Sound(users: Users) {
    && |users| <= MAX_USER_COUNT
    && (forall k :: k in users ==> users[k].username == k && k != [] && users[k].password != [])
    && ANONYMOUS in users && users[ANONYMOUS] == INITIAL[ANONYMOUS]
  }

  /** Whatever is added and removed after start-up, names are unique, the store never outgrows its
      limit, and the anonymous user is present, exactly as created. */
  lemma {:induction false} RunsAreSound(ops: seq<Op>)
    requires forall op :: op in ops ==> OpFits(op)
    ensures Sound(ApplyAll(INITIAL, ops))
  {
    if ops == [] {
      assert |INITIAL| == 1;
    } else {
      var before := ApplyAll(INITIAL, ops[..|ops| - 1]);
      RunsAreSound(ops[..|ops| - 1]);
      ApplyIsSound(before, ops[|ops| - 1]);
    }
  }

  lemma ApplyIsSound(users: Users, op: Op)
    requires Sound(users) && OpFits(op)
    ensures Sound(Apply(users, op))
  {
    hide Sound, Stored;
    match op
    case Add(u, p, a, heap) =>
      if Addable(users, u, p) {
        StoredFacts(u.s, p.s, a, heap);
        AddedIsSound(users, Stored(u.s, p.s, a, heap), u.s);
      }
    case Remove(u) =>
      if Removable(users, u) { RemovedIsSound(users, u.s); }
  }

  lemma AddedIsSound(users: Users, record: User, name: Key)
    requires Sound(users) && |users| < MAX_USER_COUNT && name !in users
    requires record.username != [] && record.password != []
    requires record.username == name || |record.username| >= MAX_CREDENTIAL_SIZE
    ensures Sound(users[record.username := record])
  {}

  lemma RemovedIsSound(users: Users, name: Key)
    requires Sound(users) && name in users && name != ANONYMOUS
    ensures Sound(users - {name})
  {
    assert |users - {name}| <= |users| by { RemoveKeepsBound(users, name); }
  }

  lemma StoredFacts(username: CString, password: CString, admin: bool, heap: Record)
    requires FitsRecord(username, password) && username != [] && password != []
    ensures var record := Stored(username, password, admin, heap);
            && record.username != [] && record.password != [] && record.admin == admin
            && (record == User(username, password, admin) <==> Kept(username, password, admin))
            && (|username| < MAX_CREDENTIAL_SIZE ==> record.username == username)
            && (|username| >= MAX_CREDENTIAL_SIZE ==>
                record.username == username[..MAX_CREDENTIAL_SIZE] + record.password)
  {
    hide Filled, CStr, Kept;
    RecordReadsBack(username, password, admin, heap);
    NameReadsBack(username, password, admin, heap);
  }

  lemma AnonymousStored(heap: Record)
    ensures Stored(ANONYMOUS, ANONYMOUS, false, heap) == INITIAL[ANONYMOUS]
  {
    hide Stored;
    StoredFacts(ANONYMOUS, ANONYMOUS, false, heap);
  }

  /** An added user is found again under its own name, with its own password, exactly when both were
      kept: within 254 bytes each, or 255 for the password of a user without the admin flag, for names
      and passwords as long as an administration request can carry them. */
  lemma FoundAgainExactlyWhen(users: Users, op: Op)
    requires op.Add? && OpFits(op) && Addable(users, op.username, op.password)
    ensures var after := Apply(users, op);
            var u, p := op.username.s, op.password.s;
            && (u in after && after[u] == User(u, p, op.admin) <==> Kept(u, p, op.admin))
            && (|u| <= 255 && |p| <= 255 ==>
                  (Kept(u, p, op.admin) <==> |u| < 255 && (|p| < 255 || !op.admin)))
  {
    hide Filled, CStr, Described;
    StoredFacts(op.username.s, op.password.s, op.admin, op.heap);
  }

  /** Apply as the interface reads: a new user is added under the name given, while there are fewer than 255; any
      user but the one called anonymous is deleted. */
  function Intended(users: Users, op: Op): Users {
    match op
    case Add(u, p, a, _) =>
      if u.Chars? && u.s != [] && p.Chars? && p.s != [] && |users| < 255 && u.s !in users
      then users[u.s := User(u.s, p.s, a)] else users
    case Remove(u) =>
      if u.Chars? && u.s != [] && u.s != [97, 110, 111, 110, 121, 109, 111, 117, 115] && u.s in users
      then map k | k in users && k != u.s :: users[k] else users
  }

  function IntendedAll(users: Users, ops: seq<Op>): Users {
    if ops == [] then users else Intended(IntendedAll(users, ops[..|ops| - 1]), ops[|ops| - 1])
  }

  predicate OpKept(op: Op) {
    op.Add? && op.username.Chars? && op.password.Chars? ==> Kept(op.username.s, op.password.s, op.admin)
  }

  /** As long as every name and password is kept, the store is the map from names to users that its
      interface suggests, over any run of adds and deletes. */
  lemma {:induction false} KeptRunsAsIntended(ops: seq<Op>)
    requires forall op :: op in ops ==> OpFits(op) && OpKept(op)
    ensures ApplyAll(INITIAL, ops) == IntendedAll(INITIAL, ops)
  {
    hide Filled, CStr, Described, Kept;
    if ops == [] {
    } else {
      KeptRunsAsIntended(ops[..|ops| - 1]);
      var op := ops[|ops| - 1];
      assert OpFits(op) && OpKept(op);
      if op.Add? && !Blank(op.username) && !Blank(op.password) {
        StoredFacts(op.username.s, op.password.s, op.admin, op.heap);
      }
    }
  }

  /** Deleting undoes adding: a new user whose name and password are kept is found, and deleted again it leaves the
      store as it was. */
  lemma DeletingUndoesAdding(users: Users, op: Op)
    requires Sound(users) && op.Add? && OpFits(op) && OpKept(op)
    requires op.username.Chars? && op.username.s != [] && op.password.Chars? && op.password.s != []
    requires |users| < 255 && op.username.s !in users
    ensures var u := op.username.s; var after := Apply(users, op);
            && u in after && after[u] == User(u, op.password.s, op.admin)
            && Apply(after, Remove(op.username)) == users
  {
    hide Filled, CStr, Described, Kept;
    StoredFacts(op.username.s, op.password.s, op.admin, op.heap);
    assert Apply(Apply(users, op), Remove(op.username)) == users;
  }

  /** A name of 255 bytes is not found after it was added: it went in together with its password, and
      adding it again with another password succeeds and takes a second place. */
  lemma LongNameIsLost(users: Users, first: Op, second: Op)
    requires |users| + 1 < MAX_USER_COUNT
    requires first.Add? && second.Add? && OpFits(first) && OpFits(second)
    requires Addable(users, first.username, first.password) && second.username == first.username
    requires |first.username.s| == MAX_CREDENTIAL_SIZE && !Blank(second.password)
    requires |first.password.s| < MAX_CREDENTIAL_SIZE && |second.password.s| < MAX_CREDENTIAL_SIZE
    requires forall p :: first.username.s + p !in users
    requires first.password != second.password
    ensures var u := first.username.s;
            var once := Apply(users, first);
            var twice := Apply(once, second);
            && u !in once && Addable(once, second.username, second.password)
            && twice.Keys == users.Keys + {u + first.password.s, u + second.password.s}
            && |twice| == |users| + 2
  {
    hide Apply, Stored;
    var u, p, q := first.username.s, first.password.s, second.password.s;
    KeysDiffer(u, p, q);
    AddLongName(users, first);
    var once := Apply(users, first);
    OneMore(users, u + p, User(u + p, p, first.admin));
    AddLongName(once, second);
    OneMore(once, u + q, User(u + q, q, second.admin));
  }

  lemma KeysDiffer(u: Key, p: Key, q: Key)
    requires p != [] && q != []
    ensures u + p != u && u + q != u && (p != q ==> u + p != u + q)
  {
    assert |u + p| > |u| && |u + q| > |u|;
    assert (u + p)[|u|..] == p && (u + q)[|u|..] == q;
  }

  lemma OneMore<K, V>(m: map<K, V>, k: K, v: V)
    requires k !in m
    ensures |m[k := v]| == |m| + 1 && m[k := v].Keys == m.Keys + {k}
  {
    assert m[k := v].Keys == m.Keys + {k};
  }

  lemma AddLongName(users: Users, op: Op)
    requires op.Add? && OpFits(op) && Addable(users, op.username, op.password)
    requires |op.username.s| == MAX_CREDENTIAL_SIZE && |op.password.s| < MAX_CREDENTIAL_SIZE
    ensures Apply(users, op) == users[op.username.s + op.password.s :=
                                      User(op.username.s + op.password.s, op.password.s, op.admin)]
  {
    hide Filled, CStr;
    RecordReadsBack(op.username.s, op.password.s, op.admin, op.heap);
    NameReadsBack(op.username.s, op.password.s, op.admin, op.heap);
    PasswordReadsBack(op.username.s, op.password.s, op.admin, op.heap);
    assert op.username.s[..MAX_CREDENTIAL_SIZE] == op.username.s;
  }

  /** The password of an administrator that fills its array runs into the flag, so the one presented at
      login never equals the one stored. */
  lemma LongAdminPasswordIsLost(users: Users, op: Op)
    requires op.Add? && OpFits(op) && Addable(users, op.username, op.password) && op.admin
    requires |op.username.s| < MAX_CREDENTIAL_SIZE && |op.password.s| == MAX_CREDENTIAL_SIZE
    ensures var after := Apply(users, op);
            op.username.s in after && after[op.username.s].password != op.password.s
  {
    hide Filled, CStr, Described;
    FoundAgainExactlyWhen(users, op);
    StoredFacts(op.username.s, op.password.s, op.admin, op.heap);
  }

  lemma SoundSize(users: Users)
    requires Sound(users)
    ensures 1 <= |users| <= MAX_USER_COUNT
  {
    assert ANONYMOUS in users.Keys;
  }

  lemma RemoveKeepsBound(users: Users, k: Key)
    requires k in users
    ensures |users - {k}| + 1 == |users|
  {
    assert users.Keys == (users - {k}).Keys + {k};
  }

  class UserInfo {
    const memory: Record
    var connectionCount: nat

    constructor (memory: Record)
      ensures this.memory == memory && connectionCount == 0
    {
      this.memory := memory;
      connectionCount := 0;
    }

    function Describe(): User {
      Described(memory)
    }
  }

  /** user_handler_create_user */
  method CreateUser(username: CString, password: CString, admin: bool) returns (user: UserInfo, ghost heap: Record)
    requires FitsRecord(username, password)
    ensures fresh(user) && user.memory == Filled(username, password, admin, heap) && user.connectionCount == 0
  {
    var memory := new byte[RECORD_SIZE];
    heap := memory[..];
    StrCpy(memory, 0, username);
    StrCpy(memory, PASSWORD_AT, password);
    memory[COUNT_AT], memory[COUNT_AT + 1] := 0, 0;
    memory[ADMIN_AT] := if admin then 1 else 0;
    user := new UserInfo(memory[..]);
  }

  ghost function UsersOf(m: map<Key, UserInfo?>): Users {
    map k | k in m && m[k] != null :: m[k].Describe()
  }

  class UserStore {
    const table: HashTable<UserInfo?>

    ghost predicate Valid()
      reads this, table, table.Repr()
    {
      && table.Valid()
      && (forall k :: k in table.Map() ==> table.Map()[k] != null)
      && table.nBuckets <= 4 * MAX_USER_COUNT
      && Sound(Users())
    }

    ghost function Users(): Users
      reads this, table
      requires table.Shape()
    {
      UsersOf(table.Map())
    }

    /** user_handler_init */
    constructor ()
      ensures Valid() && fresh(table) && fresh(table.Repr()) && Users() == INITIAL
      ensures var name := [97, 110, 111, 110, 121, 109, 111, 117, 115]; Users() == map[name := User(name, name, false)]
    {
      hide Hash, Contents, Stores, WellFormed, LiveSet, UsedSet, UsersOf, Sound, Filled, CStr, Described;
      table := new HashTable();
      new;
      var user, heap := CreateUser(ANONYMOUS, ANONYMOUS, false);
      AnonymousStored(heap);
      var x, ret := table.Put(ANONYMOUS);
      table.SetValue(x, user);
      assert table.Map() == map[ANONYMOUS := user];
      assert UsersOf(table.Map()) == INITIAL by { UsersOfFacts(table.Map()); }
      RunsAreSound([]);
    }

    lemma SizeIsUserCount()
      requires Valid()
      ensures table.size == |Users()|
    {
      hide Hash, Contents, Stores, WellFormed, LiveSet, UsersOf;
      assert table.size == |table.Map()| by { table.SizeIsMapSize(); }
      UsersOfFacts(table.Map());
    }

    lemma UsernamesAreKeys()
      requires Valid()
      ensures DistinctKeys(table.view) && Users().Keys == table.Map().Keys
      ensures forall k :: k in table.Map() ==> table.Map()[k] != null && table.Map()[k].Describe().username == k
    {
      hide Hash, Contents, Stores, WellPlaced, UsersOf;
      UsersOfFacts(table.Map());
    }

    method Exists(username: Key) returns (found: bool, admin: bool)
      requires Valid()
      ensures found <==> username in Users()
      ensures found ==> admin == Users()[username].admin
    {
      hide Hash, Contents, Stores, WellFormed, LiveSet, UsedSet, UsersOf, Sound;
      UsersOfFacts(table.Map());
      var iter := table.Get(username);
      found, admin := false, false;
      if iter != table.nBuckets {
        found := true;
        var u := table.Value(iter);
        admin := u.memory[ADMIN_AT] != 0;
      }
    }

    method GetByUsername(username: Text) returns (user: UserInfo?)
      requires Valid()
      ensures user != null <==> username.Chars? && username.s != [] && username.s in Users()
      ensures user != null ==> user.Describe() == Users()[username.s]
    {
      hide Hash, Contents, Stores, WellFormed, LiveSet, UsedSet, UsersOf, Sound;
      UsersOfFacts(table.Map());
      if username.Null? || username.s == [] { return null; }
      var iter := table.Get(username.s);
      user := null;
      if iter != table.nBuckets {
        user := table.Value(iter);
      }
    }

    /** The abort of the method announcement on a missing anonymous user is never reached. */
    method GetAnonymous() returns (user: UserInfo)
      requires Valid()
      ensures user.Describe() == INITIAL[ANONYMOUS]
    {
      var u := GetByUsername(Chars(ANONYMOUS));
      user := u;
    }

    method TotalUsers() returns (n: nat)
      requires Valid()
      ensures n == |Users()| && 1 <= n <= 255
    {
      hide Hash, Contents, Stores, WellFormed, LiveSet, UsedSet, UsersOf, Sound;
      SizeIsUserCount();
      n := table.size % 256;
      SoundSize(Users());
    }

    method AddUser(username: Text, password: Text, admin: bool) returns (user: UserInfo?, ghost heap: Record)
      requires Valid() && (username.Chars? && password.Chars? ==> FitsRecord(username.s, password.s))
      modifies table.Repr()
      ensures Valid() && fresh(table.Repr() - old(table.Repr()))
      ensures Users() == Apply(old(Users()), Add(username, password, admin, heap))
      ensures user != null <==> username.Chars? && username.s != [] && password.Chars? && password.s != []
                                && |old(Users())| < 255 && username.s !in old(Users())
      ensures user == null ==> Users() == old(Users())
      ensures user != null ==> fresh(user) && user.Describe() == Stored(username.s, password.s, admin, heap)
    {
      hide Hash, Contents, Stores, WellFormed, LiveSet, UsedSet, UsersOf, Sound, Filled, CStr, Described;
      user, heap := null, seq(RECORD_SIZE, _ => 0);
      if username.Null? || password.Null? || username.s == [] || password.s == [] { return; }
      SizeIsUserCount();
      if table.size >= MAX_USER_COUNT { return; }
      var found, _ := Exists(username.s);
      if found { return; }
      user, heap := CreateUser(username.s, password.s, admin);
      ApplyIsSound(Users(), Add(username, password, admin, heap));
      Store(user);
    }

    /** kh_put under the record's own username, then the assignment through kh_value. */
    method Store(user: UserInfo)
      requires Valid() && table.size < MAX_USER_COUNT
      requires Sound(Users()[user.Describe().username := user.Describe()])
      modifies table.Repr()
      ensures Valid() && fresh(table.Repr() - old(table.Repr()))
      ensures Users() == old(Users())[user.Describe().username := user.Describe()]
    {
      hide Hash, Contents, Stores, WellFormed, LiveSet, UsedSet, UsersOf, Sound, CStr;
      ghost var m := table.Map();
      var name := CStr(user.memory, 0);
      var iter, ret := table.Put(name);
      table.SetValue(iter, user);
      assert table.Map() == m[name := user];
      UsersOfUpdate(m, name, user);
    }

    method DeleteUser(username: Text) returns (deleted: bool)
      requires Valid()
      modifies table.Repr()
      ensures Valid() && table.Repr() == old(table.Repr())
      ensures Users() == Apply(old(Users()), Remove(username))
      ensures deleted <==> username.Chars? && username.s != []
                           && username.s != [97, 110, 111, 110, 121, 109, 111, 117, 115]
                           && username.s in old(Users())
      ensures deleted ==> Users() == map k | k in old(Users()) && k != username.s :: old(Users())[k]
      ensures !deleted ==> Users() == old(Users())
    {
      hide Hash, Contents, Stores, WellFormed, LiveSet, UsedSet, UsersOf, Sound;
      deleted := false;
      if username.Null? || username.s == [] || username.s == ANONYMOUS { return; }
      var iter := table.Get(username.s);
      assert iter != table.nBuckets <==> username.s in Users() by { UsernamesAreKeys(); }
      if iter != table.nBuckets {
        assert Sound(Users() - {username.s}) by { ApplyIsSound(Users(), Remove(username)); }
        Erase(iter, username.s);
        deleted := true;
      }
    }

    method Erase(iter: nat, username: Key)
      requires Valid() && iter < table.nBuckets && table.view[iter].Live? && table.view[iter].key == username
      requires Sound(Users() - {username})
      modifies table, table.flags
      ensures Valid() && table.Repr() == old(table.Repr())
      ensures Users() == old(Users()) - {username}
    {
      hide Hash, Contents, Stores, WellFormed, LiveSet, UsedSet, UsersOf, Sound;
      UsernamesAreKeys();
      UsersOfRemove(table.Map(), username);
      table.Delete(iter);
    }

    /** Copies every record into output, in bucket order. */
    method GetAllUsers(output: array<User>) returns (iter: nat)
      requires Valid() && output.Length >= MAX_USER_COUNT
      requires output !in table.Repr()
      modifies output
      ensures iter <= MAX_USER_COUNT && ListsAll(output[..iter], Users())
    {
      hide Hash, Contents, Stores, WellPlaced, LiveSet, LiveBuckets, UsersOf, Sound, ListsAll, CStr, Described;
      SizeIsUserCount();
      SoundSize(Users());
      UsernamesAreKeys();
      NoNullRecord(table.view);
      iter := CopyRecords(table, output);
      UsersListed(table.view, output[..iter]);
    }
  }

  lemma NoNullRecord(t: seq<Bucket<UserInfo?>>)
    requires DistinctKeys(t)
    requires forall k :: k in Contents(t) ==> Contents(t)[k] != null
    ensures forall i :: 0 <= i < |t| && t[i].Live? ==> t[i].val != null
  {
    hide Contents, DistinctKeys;
    forall i | 0 <= i < |t| && t[i].Live?
      ensures t[i].val != null
    {
      assert t[i].key in Contents(t);
    }
  }

  /** The loop over the buckets; its counter is one byte wide. */
  method CopyRecords(table: HashTable<UserInfo?>, output: array<User>) returns (iter: nat)
    requires table.Valid() && table.size <= MAX_USER_COUNT <= output.Length
    requires output !in table.Repr()
    requires forall i :: 0 <= i < |table.view| && table.view[i].Live? ==> table.view[i].val != null
    modifies output
    ensures iter == |LiveBuckets(table.view)|
    ensures iter <= output.Length && forall j :: 0 <= j < iter ==> Holds(output[j], LiveBuckets(table.view)[j])
  {
    hide Hash, Contents, Stores, WellFormed, LiveSet, LiveBuckets, CStr, Described;
    ghost var t := table.view;
    iter := 0;
    NoLiveBuckets(t[..0]);
    for k := 0 to table.nBuckets
      invariant table.Valid()
      invariant iter == |LiveBuckets(t[..k])| <= MAX_USER_COUNT
      invariant forall j :: 0 <= j < iter ==> Holds(output[j], LiveBuckets(t[..k])[j])
    {
      LiveBucketsNext(t, k);
      var live := table.Exists(k);
      if live {
        var u := table.Value(k);
        output[iter] := u.Describe();
        iter := (iter + 1) % 256;
      }
    }
    assert t[..table.nBuckets] == t;
  }

  ghost predicate Holds(record: User, b: Bucket<UserInfo?>) {
    b.Live? && b.val != null && b.val.Describe() == record
  }

  /** The list holds every user once, and nothing else. */
  ghost predicate ListsAll(list: seq<User>, users: Users) {
    && |list| == |users|
    && (forall j :: 0 <= j < |list| ==> list[j].username in users && list[j] == users[list[j].username])
    && (forall i, j :: 0 <= i < j < |list| ==> list[i].username != list[j].username)
    && (forall u :: u in users ==> users[u] in list)
  }

  /** Records that stand for the keys, each key once. */
  lemma KeysListed(keys: seq<Key>, list: seq<User>, users: Users)
    requires |list| == |keys| == |users| && forall u :: u in users ==> users[u].username == u && u in keys
    requires forall j :: 0 <= j < |keys| ==> keys[j] in users && users[keys[j]] == list[j]
    requires forall i, j :: 0 <= i < j < |keys| ==> keys[i] != keys[j]
    ensures ListsAll(list, users)
  {
    forall j | 0 <= j < |list|
      ensures list[j].username == keys[j]
    {
      assert keys[j] in users;
    }
    forall u | u in users
      ensures users[u] in list
    {
      var j :| 0 <= j < |keys| && keys[j] == u;
    }
  }

  /** One record, copied from its bucket. */
  lemma ListedIsUser(m: map<Key, UserInfo?>, record: User, b: Bucket<UserInfo?>)
    requires Holds(record, b) && b.key in m && m[b.key] == b.val
    requires forall q :: q in m ==> m[q] != null
    ensures UsersOf(m)[b.key] == record
  {}

  lemma KeysOf(t: seq<Bucket<UserInfo?>>) returns (keys: seq<Key>)
    requires DistinctKeys(t)
    ensures |keys| == |LiveBuckets(t)| == |Contents(t)|
    ensures forall j :: 0 <= j < |keys| ==> LiveBuckets(t)[j].key == keys[j] && keys[j] in Contents(t)
    ensures forall i, j :: 0 <= i < j < |keys| ==> keys[i] != keys[j]
    ensures forall k :: k in Contents(t) ==> k in keys
  {
    hide Contents, DistinctKeys, LiveBuckets;
    IterationVisitsOnce(t);
    var m, s := Contents(t), LiveBuckets(t);
    keys := seq(|s|, j requires 0 <= j < |s| => s[j].key);
    forall u | u in m
      ensures u in keys
    {
      var j :| 0 <= j < |s| && s[j] == Live(u, m[u]);
      assert keys[j] == u;
    }
  }

  /** Records copied in iteration order list every user exactly once. */
  lemma UsersListed(t: seq<Bucket<UserInfo?>>, list: seq<User>)
    requires DistinctKeys(t) && |list| == |LiveBuckets(t)|
    requires forall k :: k in Contents(t) ==> Contents(t)[k] != null && Contents(t)[k].Describe().username == k
    requires forall j :: 0 <= j < |list| ==> Holds(list[j], LiveBuckets(t)[j])
    ensures ListsAll(list, UsersOf(Contents(t)))
  {
    hide Contents, DistinctKeys, LiveBuckets, UsersOf, UserInfo.Describe, Holds, ListsAll;
    var m := Contents(t);
    var keys := KeysOf(t);
    UsersOfFacts(m);
    SameSize(m, UsersOf(m));
    forall j | 0 <= j < |list|
      ensures UsersOf(m)[keys[j]] == list[j]
    {
      IterationVisitsOnce(t);
      ListedIsUser(m, list[j], LiveBuckets(t)[j]);
    }
    KeysListed(keys, list, UsersOf(m));
  }

  lemma SameSize<V, W>(m: map<Key, V>, n: map<Key, W>)
    requires m.Keys == n.Keys
    ensures |m| == |n|
  {
    assert |m.Keys| == |m| && |n.Keys| == |n|;
  }

  lemma NoLiveBuckets<V>(t: seq<Bucket<V>>)
    requires t == []
    ensures LiveBuckets(t) == []
  {}

  lemma UsersOfFacts(m: map<Key, UserInfo?>)
    requires forall q :: q in m ==> m[q] != null
    ensures UsersOf(m).Keys == m.Keys
    ensures forall q :: q in m ==> UsersOf(m)[q] == m[q].Describe()
  {}

  lemma UsersOfUpdate(m: map<Key, UserInfo?>, k: Key, u: UserInfo)
    requires forall q :: q in m ==> m[q] != null
    ensures UsersOf(m[k := u]) == UsersOf(m)[k := u.Describe()]
  {}

  lemma UsersOfRemove(m: map<Key, UserInfo?>, k: Key)
    requires forall q :: q in m ==> m[q] != null
    ensures UsersOf(m - {k}) == UsersOf(m) - {k}
  {}
}
