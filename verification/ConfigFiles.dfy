// The configuration kept in two files: what a commit writes, and what reading the files restores.
module ConfigFiles {
  import opened Sessions

  /** The members of an object stand in the order in which it is iterated. */
  datatype Json =
    | Null
    | Bool(b: bool)
    | Int(n: int)
    | Float(r: real)
    | Str(s: string)
    | Arr(items: seq<Json>)
    | Obj(members: seq<Member>)

  datatype Member = Member(key: string, value: Json)

  /** A file that is not there, that does not parse, or that does. */
  datatype Doc = Missing | Corrupt | Parsed(data: Json)

  datatype Memory = Memory(store: View, uuid: string)

  const REVISION := 1

  /** The key-value pairs of an object; those of anything else have keys that nothing here looks for. */
  function Members(v: Json): seq<Member> {
    if v.Obj? then v.members else []
  }

  function Values(members: seq<Member>): seq<Json> {
    seq(|members|, i requires 0 <= i < |members| => members[i].value)
  }

  /** What a loop over a value runs through. */
  function Elements(v: Json): seq<Json> {
    match v
    case Null => []
    case Arr(items) => items
    case Obj(members) => Values(members)
    case _ => [v]
  }

  // ---------------------------------------------------------------------------------------------
  // Reading.

  datatype Kind = Text | Flag

  predicate IsKind(v: Json, kind: Kind) {
    match kind
    case Text => v.Str?
    case Flag => v.Bool?
  }

  /** The last value of a kind under a key, null if there is none. */
  function LastOf(members: seq<Member>, key: string, kind: Kind): (v: Json)
    ensures v.Null? || IsKind(v, kind)
  {
    if members == [] then Null
    else
      var last := members[|members| - 1];
      if last.key == key && IsKind(last.value, kind) then last.value
      else LastOf(members[..|members| - 1], key, kind)
  }

  predicate DistinctKeys(members: seq<Member>) {
    forall i, j | 0 <= i < j < |members| :: members[i].key != members[j].key
  }

  lemma {:induction false} LastIsOnly(members: seq<Member>, i: nat, kind: Kind)
    requires DistinctKeys(members) && i < |members| && IsKind(members[i].value, kind)
    ensures LastOf(members, members[i].key, kind) == members[i].value
  {
    if i < |members| - 1 {
      LastIsOnly(members[..|members| - 1], i, kind);
    }
  }

  function TextOf(members: seq<Member>, key: string): string {
    var v := LastOf(members, key, Text);
    if v.Str? then v.s else ""
  }

  function FlagOf(members: seq<Member>, key: string, default: bool): bool {
    var v := LastOf(members, key, Flag);
    if v.Bool? then v.b else default
  }

  function AuthOf(auth: Auth, members: seq<Member>): Auth {
    Auth(FlagOf(members, "XToken", auth.xtoken), FlagOf(members, "Cookie", auth.cookie),
         FlagOf(members, "SessionToken", auth.sessionToken), FlagOf(members, "BasicAuth", auth.basic),
         FlagOf(members, "TLS", auth.tls))
  }

  /** The four texts without which a session is not restored. */
  predicate Complete(token: string, r: Record) {
    r.uniqueId != "" && r.username != "" && token != "" && r.csrfToken != ""
  }

  /** A session as it comes back: its idle time starts anew, and what is not stored is lost. */
  function AsRestored(r: Record, storage: Storage, now: int): Record {
    Record(r.uniqueId, r.username, r.csrfToken, "", r.clientIp, Persistence.Timeout, false, now, storage)
  }

  /** What an element of the list of sessions spells out. */
  function Spelled(elem: Json, storage: Storage, now: int): (string, Record) {
    var ms := Members(elem);
    (TextOf(ms, "session_token"),
     Record(TextOf(ms, "unique_id"), TextOf(ms, "username"), TextOf(ms, "csrf_token"), "", TextOf(ms, "client_ip"),
            Persistence.Timeout, false, now, storage))
  }

  function RestoreOne(sessions: map<string, Record>, elem: Json, storage: Storage, now: int): map<string, Record> {
    var (token, r) := Spelled(elem, storage, now);
    if Complete(token, r) then Emplace(sessions, token, r) else sessions
  }

  function RestoreAll(sessions: map<string, Record>, elems: seq<Json>, storage: Storage, now: int): map<string, Record> {
    if elems == [] then sessions
    else RestoreOne(RestoreAll(sessions, elems[..|elems| - 1], storage, now), elems[|elems| - 1], storage, now)
  }

  function ReadMember(m: Memory, item: Member, storage: Storage, now: int): Memory {
    if item.key == "system_uuid" then
      if item.value.Str? then m.(uuid := item.value.s) else m
    else if item.key == "auth_config" then m.(store := m.store.(auth := AuthOf(m.store.auth, Members(item.value))))
    else if item.key == "sessions" then
      m.(store := m.store.(sessions := RestoreAll(m.store.sessions, Elements(item.value), storage, now)))
    else if item.key == "timeout" then
      if item.value.Int? then m.(store := m.store.(timeout := item.value.n)) else m
    else m
  }

  function ReadMembers(m: Memory, items: seq<Member>, storage: Storage, now: int): Memory {
    if items == [] then m
    else ReadMember(ReadMembers(m, items[..|items| - 1], storage, now), items[|items| - 1], storage, now)
  }

  function ReadDoc(m: Memory, doc: Doc, storage: Storage, now: int): Memory {
    if doc.Parsed? then ReadMembers(m, Members(doc.data), storage, now) else m
  }

  /** After a file that is not corrupt, a missing identifier is made up, and both files are written. */
  predicate MakesUuid(m: Memory, doc: Doc, storage: Storage, now: int) {
    !doc.Corrupt? && ReadDoc(m, doc, storage, now).uuid == ""
  }

  function ReadFile(m: Memory, doc: Doc, storage: Storage, newUuid: string, now: int): Memory {
    var read := ReadDoc(m, doc, storage, now);
    if MakesUuid(m, doc, storage, now) then read.(uuid := newUuid) else read
  }

  // ---------------------------------------------------------------------------------------------
  // Writing.

  predicate Persisted(r: Record, storage: Storage) {
    r.persistence != SingleRequest && r.storage == storage
  }

  function SessionMembers(token: string, r: Record): seq<Member> {
    [Member("unique_id", Str(r.uniqueId)), Member("session_token", Str(token)), Member("username", Str(r.username)),
     Member("csrf_token", Str(r.csrfToken)), Member("client_ip", Str(r.clientIp))]
  }

  predicate NoDuplicates<T(==)>(s: seq<T>) {
    forall i, j | 0 <= i < j < |s| :: s[i] != s[j]
  }

  /** The tokens whose sessions go to a file, in the unspecified order of the token dictionary. */
  ghost predicate IsOrder(order: seq<string>, sessions: map<string, Record>, storage: Storage) {
    NoDuplicates(order) &&
    forall t :: t in order <==> t in sessions && Persisted(sessions[t], storage)
  }

  function Listing(order: seq<string>, sessions: map<string, Record>): seq<Json>
    requires forall t | t in order :: t in sessions
  {
    seq(|order|, i requires 0 <= i < |order| => Obj(SessionMembers(order[i], sessions[order[i]])))
  }

  function AuthMembers(auth: Auth): seq<Member> {
    [Member("XToken", Bool(auth.xtoken)), Member("Cookie", Bool(auth.cookie)),
     Member("SessionToken", Bool(auth.sessionToken)), Member("BasicAuth", Bool(auth.basic)), Member("TLS", Bool(auth.tls))]
  }

  function LongTermDoc(m: Memory, items: seq<Json>): Doc {
    Parsed(Obj([Member("revision", Int(REVISION)), Member("auth_config", Obj(AuthMembers(m.store.auth))),
                Member("system_uuid", Str(m.uuid)), Member("timeout", Int(m.store.timeout)),
                Member("sessions", Arr(items))]))
  }

  function CurrentBmcDoc(items: seq<Json>): Doc {
    Parsed(Obj([Member("revision", Int(REVISION)), Member("sessions", Arr(items))]))
  }

  function DocOf(m: Memory, storage: Storage, items: seq<Json>): Doc {
    if storage.LongTerm? then LongTermDoc(m, items) else CurrentBmcDoc(items)
  }

  /** A file as a commit may write it. */
  ghost predicate IsWritten(doc: Doc, m: Memory, storage: Storage) {
    exists order: seq<string> ::
      IsOrder(order, m.store.sessions, storage) && doc == DocOf(m, storage, Listing(order, m.store.sessions))
  }

  // ---------------------------------------------------------------------------------------------
  // Reading back what was written.

  lemma SpelledIsWritten(token: string, r: Record, storage: Storage, now: int)
    ensures Spelled(Obj(SessionMembers(token, r)), storage, now) == (token, AsRestored(r, storage, now))
  {
    var ms := SessionMembers(token, r);
    assert ms[0].key[0] == 'u' && ms[4].key[0] == 'c';
    assert |ms[0].key| == 9 && |ms[1].key| == 13 && |ms[2].key| == 8 && |ms[3].key| == 10 && |ms[4].key| == 9;
    for i := 0 to 5
      invariant forall j | 0 <= j < i :: LastOf(ms, ms[j].key, Text) == ms[j].value
    {
      LastIsOnly(ms, i, Text);
    }
  }

  lemma AuthIsWritten(auth: Auth, other: Auth)
    ensures AuthOf(other, AuthMembers(auth)) == auth
  {
    var ms := AuthMembers(auth);
    assert ms[0].key[0] == 'X' && ms[1].key[0] == 'C';
    assert |ms[0].key| == 6 && |ms[1].key| == 6 && |ms[2].key| == 12 && |ms[3].key| == 9 && |ms[4].key| == 3;
    for i := 0 to 5
      invariant forall j | 0 <= j < i :: LastOf(ms, ms[j].key, Flag) == ms[j].value
    {
      LastIsOnly(ms, i, Flag);
    }
  }

  lemma RestoreWritten(base: map<string, Record>, token: string, r: Record, storage: Storage, now: int)
    ensures RestoreOne(base, Obj(SessionMembers(token, r)), storage, now) ==
            if Complete(token, r) then Emplace(base, token, AsRestored(r, storage, now)) else base
  {
    SpelledIsWritten(token, r, storage, now);
  }

  /** Sessions that are there, and the complete ones of a list that are not. */
  function Merged(base: map<string, Record>, order: seq<string>, sessions: map<string, Record>,
                  storage: Storage, now: int): map<string, Record>
    requires forall t | t in order :: t in sessions
  {
    map t | t in base.Keys + sessions.Keys && (t in base || (t in order && Complete(t, sessions[t]))) ::
      if t in base then base[t] else AsRestored(sessions[t], storage, now)
  }

  lemma MergeOneMore(base: map<string, Record>, front: seq<string>, token: string, sessions: map<string, Record>,
                     storage: Storage, now: int)
    requires token in sessions && forall t | t in front :: t in sessions
    ensures Merged(base, front + [token], sessions, storage, now) ==
            var before := Merged(base, front, sessions, storage, now);
            if Complete(token, sessions[token])
            then Emplace(before, token, AsRestored(sessions[token], storage, now)) else before
  {
    assert forall t :: t in front + [token] <==> t in front || t == token;
  }

  lemma {:induction false} RestoreListing(base: map<string, Record>, order: seq<string>, sessions: map<string, Record>,
                                          storage: Storage, now: int)
    requires forall t | t in order :: t in sessions
    ensures RestoreAll(base, Listing(order, sessions), storage, now) == Merged(base, order, sessions, storage, now)
  {
    if order == [] {
      MergedNone(base, sessions, storage, now);
    } else {
      var n := |order| - 1;
      var front, items := order[..n], Listing(order, sessions);
      assert order == front + [order[n]];
      RestoreListing(base, front, sessions, storage, now);
      assert items[..n] == Listing(front, sessions) && items[n] == Obj(SessionMembers(order[n], sessions[order[n]]));
      RestoreWritten(RestoreAll(base, items[..n], storage, now), order[n], sessions[order[n]], storage, now);
      MergeOneMore(base, front, order[n], sessions, storage, now);
    }
  }

  lemma MergedNone(base: map<string, Record>, sessions: map<string, Record>, storage: Storage, now: int)
    ensures Merged(base, [], sessions, storage, now) == base
  {
  }

  lemma KeysDiffer()
    ensures "revision" != "sessions" && "auth_config" != "system_uuid"
  {
    assert "revision"[0] == 'r' && "auth_config"[0] == 'a';
  }

  lemma ReadOneMore(m: Memory, items: seq<Member>, i: nat, storage: Storage, now: int)
    requires i < |items|
    ensures ReadMembers(m, items[..i + 1], storage, now) ==
            ReadMember(ReadMembers(m, items[..i], storage, now), items[i], storage, now)
  {
    assert items[..i + 1][..i] == items[..i];
  }

  /** Reading a written file takes its sessions, and from the first file the rest of the configuration. */
  lemma ReadWritten(into: Memory, m: Memory, order: seq<string>, storage: Storage, now: int)
    requires forall t | t in order :: t in m.store.sessions
    ensures var items := Listing(order, m.store.sessions);
            ReadDoc(into, DocOf(m, storage, items), storage, now) ==
            (if storage.LongTerm? then m else into).(store :=
               (if storage.LongTerm? then m.store else into.store).(
                  sessions := RestoreAll(into.store.sessions, items, storage, now), lastSweep := into.store.lastSweep))
  {
    var items := Listing(order, m.store.sessions);
    if storage.LongTerm? {
      ReadLongTerm(into, m, items, storage, now);
    } else {
      ReadCurrentBmc(into, items, storage, now);
    }
  }

  lemma ReadLongTerm(into: Memory, m: Memory, items: seq<Json>, storage: Storage, now: int)
    ensures ReadDoc(into, LongTermDoc(m, items), storage, now) ==
            m.(store := m.store.(sessions := RestoreAll(into.store.sessions, items, storage, now), lastSweep := into.store.lastSweep))
  {
    var ms := Members(LongTermDoc(m, items).data);
    var m2 := into.(store := into.store.(auth := m.store.auth));
    var m4 := m2.(uuid := m.uuid, store := m2.store.(timeout := m.store.timeout));
    ReadFive(into, ms, storage, now);
    RevisionThenAuth(into, m.store.auth, storage, now);
    UuidThenTimeout(m2, m.uuid, m.store.timeout, storage, now);
    ReadSessions(m4, items, storage, now);
  }

  lemma ReadFive(m: Memory, items: seq<Member>, storage: Storage, now: int)
    requires |items| == 5
    ensures ReadMembers(m, items, storage, now) ==
            var m2 := ReadMember(ReadMember(m, items[0], storage, now), items[1], storage, now);
            var m4 := ReadMember(ReadMember(m2, items[2], storage, now), items[3], storage, now);
            ReadMember(m4, items[4], storage, now)
  {
    ReadOneMore(m, items, 0, storage, now);
    ReadOneMore(m, items, 1, storage, now);
    ReadOneMore(m, items, 2, storage, now);
    ReadOneMore(m, items, 3, storage, now);
    ReadOneMore(m, items, 4, storage, now);
    assert items[..5] == items;
  }

  lemma ReadSessions(m: Memory, items: seq<Json>, storage: Storage, now: int)
    ensures ReadMember(m, Member("sessions", Arr(items)), storage, now) ==
            m.(store := m.store.(sessions := RestoreAll(m.store.sessions, items, storage, now)))
  {
  }

  lemma RevisionThenAuth(m: Memory, auth: Auth, storage: Storage, now: int)
    ensures ReadMember(ReadMember(m, Member("revision", Int(REVISION)), storage, now),
                       Member("auth_config", Obj(AuthMembers(auth))), storage, now)
         == m.(store := m.store.(auth := auth))
  {
    KeysDiffer();
    AuthIsWritten(auth, m.store.auth);
  }

  lemma UuidThenTimeout(m: Memory, uuid: string, timeout: int, storage: Storage, now: int)
    ensures ReadMember(ReadMember(m, Member("system_uuid", Str(uuid)), storage, now),
                       Member("timeout", Int(timeout)), storage, now)
         == m.(uuid := uuid, store := m.store.(timeout := timeout))
  {
    KeysDiffer();
  }

  lemma ReadCurrentBmc(into: Memory, items: seq<Json>, storage: Storage, now: int)
    ensures ReadDoc(into, CurrentBmcDoc(items), storage, now) ==
            into.(store := into.store.(sessions := RestoreAll(into.store.sessions, items, storage, now)))
  {
    var ms := Members(CurrentBmcDoc(items).data);
    KeysDiffer();
    ReadOneMore(into, ms, 0, storage, now);
    ReadOneMore(into, ms, 1, storage, now);
    assert ms[..2] == ms;
  }

  // ---------------------------------------------------------------------------------------------
  // Both files.

  /** Reading the first file may write both, the second one before it is read: from then on it holds
      sessions that are in memory already. */
  function ReadBoth(m: Memory, longTerm: Doc, currentBmc: Doc, newUuid: string, now: int): Memory {
    var first := ReadFile(m, longTerm, LongTerm, newUuid, now);
    if MakesUuid(m, longTerm, LongTerm, now) then first else ReadFile(first, currentBmc, CurrentBmc, newUuid, now)
  }

  lemma ReadingWrittenChangesNothing(m: Memory, doc: Doc, storage: Storage, newUuid: string, now: int)
    requires m.uuid != "" && IsWritten(doc, m, storage) && !storage.CurrentService?
    ensures ReadFile(m, doc, storage, newUuid, now) == m && !MakesUuid(m, doc, storage, now)
  {
    var order: seq<string> :|
      IsOrder(order, m.store.sessions, storage) && doc == DocOf(m, storage, Listing(order, m.store.sessions));
    ReadWritten(m, m, order, storage, now);
    RestoreListing(m.store.sessions, order, m.store.sessions, storage, now);
    assert Merged(m.store.sessions, order, m.store.sessions, storage, now) == m.store.sessions;
  }

  /** Committing and reading the two files back leaves everything in memory as it was. */
  lemma CommitThenReadIsIdentity(m: Memory, longTerm: Doc, currentBmc: Doc, newUuid: string, now: int)
    requires m.uuid != "" && IsWritten(longTerm, m, LongTerm) && IsWritten(currentBmc, m, CurrentBmc)
    ensures ReadBoth(m, longTerm, currentBmc, newUuid, now) == m
  {
    ReadingWrittenChangesNothing(m, longTerm, LongTerm, newUuid, now);
    ReadingWrittenChangesNothing(m, currentBmc, CurrentBmc, newUuid, now);
  }

  const FRESH := Memory(View(map[], 0, DEFAULT_TIMEOUT, DEFAULT_AUTH), "")

  predicate Survives(token: string, r: Record) {
    r.persistence != SingleRequest && !r.storage.CurrentService? && Complete(token, r)
  }

  /** What is left of a memory after a restart. */
  function Restarted(m: Memory, now: int): Memory {
    m.(store := m.store.(lastSweep := 0,
      sessions := map t | t in m.store.sessions && Survives(t, m.store.sessions[t]) ::
                    AsRestored(m.store.sessions[t], m.store.sessions[t].storage, now)))
  }

  lemma RestartRestores(m: Memory, longTerm: Doc, currentBmc: Doc, newUuid: string, now: int)
    requires m.uuid != "" && IsWritten(longTerm, m, LongTerm) && IsWritten(currentBmc, m, CurrentBmc)
    ensures ReadBoth(FRESH, longTerm, currentBmc, newUuid, now) == Restarted(m, now)
  {
    var sessions := m.store.sessions;
    var order1: seq<string> :| IsOrder(order1, sessions, LongTerm) && longTerm == DocOf(m, LongTerm, Listing(order1, sessions));
    var order2: seq<string> :| IsOrder(order2, sessions, CurrentBmc) && currentBmc == DocOf(m, CurrentBmc, Listing(order2, sessions));
    ReadWritten(FRESH, m, order1, LongTerm, now);
    RestoreListing(map[], order1, sessions, LongTerm, now);
    var first := ReadDoc(FRESH, longTerm, LongTerm, now);
    ReadWritten(first, m, order2, CurrentBmc, now);
    RestoreListing(first.store.sessions, order2, sessions, CurrentBmc, now);
    MergedBoth(sessions, order1, order2, now);
  }

  lemma MergedBoth(sessions: map<string, Record>, order1: seq<string>, order2: seq<string>, now: int)
    requires IsOrder(order1, sessions, LongTerm) && IsOrder(order2, sessions, CurrentBmc)
    ensures Merged(Merged(map[], order1, sessions, LongTerm, now), order2, sessions, CurrentBmc, now) ==
            map t | t in sessions && Survives(t, sessions[t]) :: AsRestored(sessions[t], sessions[t].storage, now)
  {
  }

  predicate SameUpToOrder(a: Doc, b: Doc) {
    && a.Parsed? && b.Parsed? && |Members(a.data)| == |Members(b.data)|
    && forall i | 0 <= i < |Members(a.data)| ::
         var x, y := Members(a.data)[i], Members(b.data)[i];
         && x.key == y.key
         && (x.value == y.value || (x.value.Arr? && y.value.Arr? && multiset(x.value.items) == multiset(y.value.items)))
  }

  lemma {:induction false} CountWithoutDuplicates<T>(s: seq<T>, x: T)
    requires NoDuplicates(s)
    ensures multiset(s)[x] == if x in s then 1 else 0
  {
    if s != [] {
      CountWithoutDuplicates(s[1..], x);
      assert s == [s[0]] + s[1..];
    }
  }

  lemma SameElementsSameCounts<T>(a: seq<T>, b: seq<T>)
    requires NoDuplicates(a) && NoDuplicates(b)
    ensures multiset(a) == multiset(b) <==> forall x :: x in a <==> x in b
  {
    if forall x :: x in a <==> x in b {
      forall x ensures multiset(a)[x] == multiset(b)[x] {
        CountWithoutDuplicates(a, x);
        CountWithoutDuplicates(b, x);
      }
    } else {
      var x :| (x in a) != (x in b);
      CountWithoutDuplicates(a, x);
      CountWithoutDuplicates(b, x);
    }
  }

  function SessionJson(t: string, r: Record): Json { Obj(SessionMembers(t, r)) }

  lemma ListingExactly(order: seq<string>, sessions: map<string, Record>)
    requires NoDuplicates(order) && forall t | t in order :: t in sessions
    ensures NoDuplicates(Listing(order, sessions))
    ensures forall x :: x in Listing(order, sessions) <==> exists t | t in order :: x == SessionJson(t, sessions[t])
  {
    var items := Listing(order, sessions);
    forall i, j | 0 <= i < j < |items| ensures items[i] != items[j] {
      assert items[i].members[1] == Member("session_token", Str(order[i]));
      assert items[j].members[1] == Member("session_token", Str(order[j]));
    }
    forall t | t in order ensures SessionJson(t, sessions[t]) in items {
      var i :| 0 <= i < |order| && order[i] == t;
      assert items[i] == SessionJson(t, sessions[t]);
    }
  }

  /** A restart writes back the files it found, up to the order of the sessions, exactly when every
      session in them had its four texts. */
  lemma RestartWritesTheSame(m: Memory, doc: Doc, doc': Doc, storage: Storage, now: int)
    requires IsWritten(doc, m, storage) && IsWritten(doc', Restarted(m, now), storage) && !storage.CurrentService?
    ensures SameUpToOrder(doc, doc') <==>
            forall t | t in m.store.sessions && Persisted(m.store.sessions[t], storage) :: Complete(t, m.store.sessions[t])
  {
    var before, after := m.store.sessions, Restarted(m, now).store.sessions;
    var order: seq<string> :| IsOrder(order, before, storage) && doc == DocOf(m, storage, Listing(order, before));
    var order': seq<string> :| IsOrder(order', after, storage) && doc' == DocOf(Restarted(m, now), storage, Listing(order', after));
    ListingExactly(order, before);
    ListingExactly(order', after);
    SameElementsSameCounts(Listing(order, before), Listing(order', after));
    SameListings(m, order, order', storage, now);
    SameDocs(m, Restarted(m, now), storage, Listing(order, before), Listing(order', after));
    assert (forall t | t in order :: Complete(t, before[t])) <==>
           forall t | t in before && Persisted(before[t], storage) :: Complete(t, before[t]);
  }

  lemma SameDocs(m: Memory, m': Memory, storage: Storage, items: seq<Json>, items': seq<Json>)
    requires m.uuid == m'.uuid && m.store.timeout == m'.store.timeout && m.store.auth == m'.store.auth
    ensures SameUpToOrder(DocOf(m, storage, items), DocOf(m', storage, items')) <==> multiset(items) == multiset(items')
  {
    var a, b := Members(DocOf(m, storage, items).data), Members(DocOf(m', storage, items').data);
    assert a[|a| - 1].value == Arr(items) && b[|b| - 1].value == Arr(items');
    assert items == items' ==> multiset(items) == multiset(items');
  }

  lemma SameListings(m: Memory, order: seq<string>, order': seq<string>, storage: Storage, now: int)
    requires IsOrder(order, m.store.sessions, storage) && IsOrder(order', Restarted(m, now).store.sessions, storage)
    requires !storage.CurrentService?
    ensures (forall x :: x in Listing(order, m.store.sessions) <==> x in Listing(order', Restarted(m, now).store.sessions))
            <==> forall t | t in order :: Complete(t, m.store.sessions[t])
  {
    var before, after := m.store.sessions, Restarted(m, now).store.sessions;
    ListingExactly(order, before);
    ListingExactly(order', after);
    forall t | t in order' ensures t in order && Complete(t, before[t]) && SessionJson(t, after[t]) == SessionJson(t, before[t]) {
    }
    if t :| t in order && !Complete(t, before[t]) {
      var x := SessionJson(t, before[t]);
      assert x in Listing(order, before);
      forall u | u in order' ensures x != SessionJson(u, after[u]) {
        assert SessionJson(u, after[u]).members[1] == Member("session_token", Str(u));
        assert x.members[1] == Member("session_token", Str(t));
      }
      assert x !in Listing(order', after);
    } else {
      forall t | t in order ensures t in order' {
      }
    }
  }

  /** An element that adds no session: a text is missing, or its token is in use. */
  predicate AddsNothing(sessions: map<string, Record>, elem: Json) {
    var (token, r) := Spelled(elem, CurrentBmc, 0);
    Complete(token, r) ==> token in sessions
  }

  lemma RestoreOneAdds(sessions: map<string, Record>, elem: Json, storage: Storage, now: int) returns (token: string, r: Record)
    ensures AddsNothing(sessions, elem) ==> RestoreOne(sessions, elem, storage, now) == sessions
    ensures !AddsNothing(sessions, elem) ==> token !in sessions && RestoreOne(sessions, elem, storage, now) == sessions[token := r]
  {
    token, r := Spelled(elem, storage, now).0, Spelled(elem, storage, now).1;
  }

  /** More sessions under the same tokens and others. */
  predicate Extends(a: map<string, Record>, b: map<string, Record>) {
    forall t | t in a :: t in b && b[t] == a[t]
  }

  lemma ExtendsTwice(a: map<string, Record>, b: map<string, Record>, c: map<string, Record>)
    requires Extends(a, b) && Extends(b, c)
    ensures Extends(a, c) && (a == c <==> a == b && b == c)
  {
  }

  lemma RestoreOneKeepsIff(sessions: map<string, Record>, elem: Json, storage: Storage, now: int)
    ensures Extends(sessions, RestoreOne(sessions, elem, storage, now))
    ensures RestoreOne(sessions, elem, storage, now) == sessions <==> AddsNothing(sessions, elem)
  {
    var token, r := RestoreOneAdds(sessions, elem, storage, now);
  }

  predicate AllAddNothing(sessions: map<string, Record>, elems: seq<Json>) {
    forall i | 0 <= i < |elems| :: AddsNothing(sessions, elems[i])
  }

  lemma AllAddNothingOneMore(sessions: map<string, Record>, elems: seq<Json>)
    requires elems != []
    ensures var n := |elems| - 1;
            AllAddNothing(sessions, elems) <==> AllAddNothing(sessions, elems[..n]) && AddsNothing(sessions, elems[n])
  {
    assert forall i | 0 <= i < |elems| - 1 :: elems[..|elems| - 1][i] == elems[i];
  }

  lemma {:induction false} RestoreAllKeepsIff(sessions: map<string, Record>, elems: seq<Json>, storage: Storage, now: int)
    ensures Extends(sessions, RestoreAll(sessions, elems, storage, now))
    ensures RestoreAll(sessions, elems, storage, now) == sessions <==> AllAddNothing(sessions, elems)
  {
    if elems != [] {
      var n := |elems| - 1;
      var before := RestoreAll(sessions, elems[..n], storage, now);
      RestoreAllKeepsIff(sessions, elems[..n], storage, now);
      RestoreOneKeepsIff(before, elems[n], storage, now);
      ExtendsTwice(sessions, before, RestoreOne(before, elems[n], storage, now));
      AllAddNothingOneMore(sessions, elems);
    }
  }

  /** A file in whose lists of sessions no element adds one. */
  predicate NothingToLose(sessions: map<string, Record>, items: seq<Member>) {
    forall i | 0 <= i < |items| && items[i].key == "sessions" :: AllAddNothing(sessions, Elements(items[i].value))
  }

  lemma {:induction false} ReadKeepsIff(m: Memory, items: seq<Member>, storage: Storage, now: int)
    ensures Extends(m.store.sessions, ReadMembers(m, items, storage, now).store.sessions)
    ensures ReadMembers(m, items, storage, now).store.sessions == m.store.sessions <==> NothingToLose(m.store.sessions, items)
  {
    if items != [] {
      var n, sessions := |items| - 1, m.store.sessions;
      var before, last := ReadMembers(m, items[..n], storage, now), items[n];
      ReadKeepsIff(m, items[..n], storage, now);
      ReadMemberKeepsIff(before, last, storage, now);
      ExtendsTwice(sessions, before.store.sessions, ReadMember(before, last, storage, now).store.sessions);
      NothingToLoseOneMore(sessions, items);
    }
  }

  lemma ReadMemberKeepsIff(m: Memory, item: Member, storage: Storage, now: int)
    ensures Extends(m.store.sessions, ReadMember(m, item, storage, now).store.sessions)
    ensures ReadMember(m, item, storage, now).store.sessions == m.store.sessions <==>
            (item.key == "sessions" ==> AllAddNothing(m.store.sessions, Elements(item.value)))
  {
    ReadMemberSessions(m, item, storage, now);
    RestoreAllKeepsIff(m.store.sessions, Elements(item.value), storage, now);
  }

  lemma ReadMemberSessions(m: Memory, item: Member, storage: Storage, now: int)
    ensures ReadMember(m, item, storage, now).store.sessions ==
            if item.key == "sessions" then RestoreAll(m.store.sessions, Elements(item.value), storage, now) else m.store.sessions
  {
    assert "sessions"[0] == 's' && "sessions"[1] == 'e' && "system_uuid"[1] == 'y' && "auth_config"[0] == 'a';
  }

  lemma NothingToLoseOneMore(sessions: map<string, Record>, items: seq<Member>)
    requires items != []
    ensures var n := |items| - 1;
            NothingToLose(sessions, items) <==>
            && NothingToLose(sessions, items[..n])
            && (items[n].key == "sessions" ==> AllAddNothing(sessions, Elements(items[n].value)))
  {
    var n := |items| - 1;
    assert forall i | 0 <= i < n :: items[..n][i] == items[i];
  }

  /** The identifier that a file leaves: the last text under its key, else the one before. */
  function UuidLeft(uuid: string, doc: Doc): string {
    var v := if doc.Parsed? then LastOf(Members(doc.data), "system_uuid", Text) else Null;
    if v.Str? then v.s else uuid
  }

  lemma {:induction false} ReadLeavesUuid(m: Memory, items: seq<Member>, storage: Storage, now: int)
    ensures ReadMembers(m, items, storage, now).uuid == UuidLeft(m.uuid, Parsed(Obj(items)))
  {
    if items != [] {
      var n := |items| - 1;
      ReadLeavesUuid(m, items[..n], storage, now);
      LastOfOneMore(items, n, "system_uuid", Text);
      assert items[..n + 1] == items;
    }
  }

  /** The sessions of the second file reach the memory exactly when the first file is corrupt or leaves an
      identifier, or when the second one has no complete session under a token that is not in use. */
  lemma SecondFileIsReadIff(m: Memory, longTerm: Doc, currentBmc: Doc, newUuid: string, now: int)
    ensures var first := ReadFile(m, longTerm, LongTerm, newUuid, now);
            ReadBoth(m, longTerm, currentBmc, newUuid, now).store.sessions ==
              ReadDoc(first, currentBmc, CurrentBmc, now).store.sessions <==>
            || longTerm.Corrupt?
            || UuidLeft(m.uuid, longTerm) != ""
            || (currentBmc.Parsed? ==> NothingToLose(first.store.sessions, Members(currentBmc.data)))
  {
    var first := ReadFile(m, longTerm, LongTerm, newUuid, now);
    if longTerm.Parsed? { ReadLeavesUuid(m, Members(longTerm.data), LongTerm, now); }
    if currentBmc.Parsed? { ReadKeepsIff(first, Members(currentBmc.data), CurrentBmc, now); }
  }

  /** So the current sessions are lost in a restart after the first file has disappeared. */
  lemma SessionsLostWithLongTermFile(m: Memory, currentBmc: Doc, newUuid: string, now: int)
    requires IsWritten(currentBmc, m, CurrentBmc)
    ensures ReadBoth(FRESH, Missing, currentBmc, newUuid, now).store.sessions == map[]
    ensures ReadBoth(FRESH, Corrupt, currentBmc, newUuid, now).store.sessions ==
            map t | t in m.store.sessions && Persisted(m.store.sessions[t], CurrentBmc) && Complete(t, m.store.sessions[t]) ::
              AsRestored(m.store.sessions[t], CurrentBmc, now)
  {
    var sessions := m.store.sessions;
    var order: seq<string> :| IsOrder(order, sessions, CurrentBmc) && currentBmc == DocOf(m, CurrentBmc, Listing(order, sessions));
    ReadWritten(FRESH, m, order, CurrentBmc, now);
    RestoreListing(map[], order, sessions, CurrentBmc, now);
    MergedAlone(sessions, order, now);
  }

  lemma MergedAlone(sessions: map<string, Record>, order: seq<string>, now: int)
    requires IsOrder(order, sessions, CurrentBmc)
    ensures Merged(map[], order, sessions, CurrentBmc, now) ==
            map t | t in sessions && Persisted(sessions[t], CurrentBmc) && Complete(t, sessions[t]) ::
              AsRestored(sessions[t], CurrentBmc, now)
  {
  }

  // ---------------------------------------------------------------------------------------------
  // The configuration object.

  lemma LastOfOneMore(members: seq<Member>, i: nat, key: string, kind: Kind)
    requires i < |members|
    ensures LastOf(members[..i + 1], key, kind) ==
            if members[i].key == key && IsKind(members[i].value, kind) then members[i].value
            else LastOf(members[..i], key, kind)
  {
    assert members[..i + 1][..i] == members[..i];
  }

  /** A session from an element of the list, none if a text is missing. */
  method SessionFromJson(elem: Json, now: int) returns (session: UserSession?)
    ensures var (token, r) := Spelled(elem, CurrentService, now);
            && (session != null <==> Complete(token, r))
            && (session != null ==> fresh(session) && session.sessionToken == token && session.Contents() == r)
  {
    var ms := Members(elem);
    var uniqueId, sessionToken, username, csrfToken, clientIp := "", "", "", "", "";
    for i := 0 to |ms|
      invariant uniqueId == TextOf(ms[..i], "unique_id") && sessionToken == TextOf(ms[..i], "session_token")
      invariant username == TextOf(ms[..i], "username") && csrfToken == TextOf(ms[..i], "csrf_token")
      invariant clientIp == TextOf(ms[..i], "client_ip")
    {
      LastOfOneMore(ms, i, "unique_id", Text);
      LastOfOneMore(ms, i, "session_token", Text);
      LastOfOneMore(ms, i, "username", Text);
      LastOfOneMore(ms, i, "csrf_token", Text);
      LastOfOneMore(ms, i, "client_ip", Text);
      var Member(key, value) := ms[i];
      if !value.Str? {
        continue;
      }
      if key == "unique_id" {
        uniqueId := value.s;
      } else if key == "session_token" {
        sessionToken := value.s;
      } else if key == "csrf_token" {
        csrfToken := value.s;
      } else if key == "username" {
        username := value.s;
      } else if key == "client_ip" {
        clientIp := value.s;
      }
    }
    assert ms[..|ms|] == ms;
    if uniqueId == "" || username == "" || sessionToken == "" || csrfToken == "" {
      return null;
    }
    session := new UserSession(sessionToken, Record(uniqueId, username, csrfToken, "", clientIp, Persistence.Timeout, false, now, CurrentService));
  }

  method AuthFromJson(v: Json, auth: Auth) returns (auth': Auth)
    ensures auth' == AuthOf(auth, Members(v))
  {
    var ms := Members(v);
    auth' := auth;
    for i := 0 to |ms|
      invariant auth' == AuthOf(auth, ms[..i])
    {
      FlagOneMore(auth, ms, i);
      var Member(key, value) := ms[i];
      if !value.Bool? {
        continue;
      }
      auth' := SetFlag(auth', key, value.b);
    }
    assert ms[..|ms|] == ms;
  }

  function SetFlag(auth: Auth, key: string, b: bool): Auth {
    if key == "XToken" then auth.(xtoken := b)
    else if key == "Cookie" then auth.(cookie := b)
    else if key == "SessionToken" then auth.(sessionToken := b)
    else if key == "BasicAuth" then auth.(basic := b)
    else if key == "TLS" then auth.(tls := b)
    else auth
  }

  lemma FlagOneMore(auth: Auth, ms: seq<Member>, i: nat)
    requires i < |ms|
    ensures AuthOf(auth, ms[..i + 1]) ==
            var before := AuthOf(auth, ms[..i]);
            if ms[i].value.Bool? then SetFlag(before, ms[i].key, ms[i].value.b) else before
  {
    OneFlagOneMore(ms, i, "XToken", auth.xtoken);
    OneFlagOneMore(ms, i, "Cookie", auth.cookie);
    OneFlagOneMore(ms, i, "SessionToken", auth.sessionToken);
    OneFlagOneMore(ms, i, "BasicAuth", auth.basic);
    OneFlagOneMore(ms, i, "TLS", auth.tls);
    FlagNamesDiffer();
  }

  lemma OneFlagOneMore(ms: seq<Member>, i: nat, key: string, default: bool)
    requires i < |ms|
    ensures FlagOf(ms[..i + 1], key, default) ==
            if ms[i].value.Bool? && ms[i].key == key then ms[i].value.b else FlagOf(ms[..i], key, default)
  {
    LastOfOneMore(ms, i, key, Flag);
  }

  lemma FlagNamesDiffer()
    ensures "XToken" != "Cookie" && "XToken" != "SessionToken" && "XToken" != "BasicAuth" && "XToken" != "TLS"
    ensures "Cookie" != "SessionToken" && "Cookie" != "BasicAuth" && "Cookie" != "TLS"
    ensures "SessionToken" != "BasicAuth" && "SessionToken" != "TLS" && "BasicAuth" != "TLS"
  {
    assert "XToken"[0] == 'X' && "Cookie"[0] == 'C';
  }

  class ConfigFile {
    const store: SessionStore
    var systemUuid: string
    var longTermFile: Doc
    var currentBmcFile: Doc

    /** The configuration of a service that starts with these files. */
    constructor (store: SessionStore, longTermFile: Doc, currentBmcFile: Doc, newUuid: string, now: int)
      requires store.Valid() && newUuid != ""
      modifies store
      ensures this.store == store && store.Valid()
      ensures Contents() == ReadBoth(Memory(old(store.Contents()), ""), longTermFile, currentBmcFile, newUuid, now)
    {
      this.store, systemUuid := store, "";
      this.longTermFile, this.currentBmcFile := longTermFile, currentBmcFile;
      new;
      ReadData(newUuid, now);
    }

    ghost function Contents(): Memory
      reads this, store, store.authTokens.Values
    {
      Memory(store.Contents(), systemUuid)
    }

    /** The sessions of one file. */
    method PopulateSessions(storage: Storage) returns (items: seq<Json>)
      requires store.Valid()
      ensures exists order: seq<string> ::
                && IsOrder(order, store.Contents().sessions, storage)
                && items == Listing(order, store.Contents().sessions)
    {
      items := [];
      ghost var order: seq<string> := [];
      ghost var sessions := store.Contents().sessions;
      var rest := store.authTokens.Keys;
      while rest != {}
        invariant rest <= store.authTokens.Keys == sessions.Keys
        invariant NoDuplicates(order)
        invariant forall t :: t in order <==> t in sessions && t !in rest && Persisted(sessions[t], storage)
        invariant items == Listing(order, sessions)
        decreases |rest|
      {
        var k :| k in rest;
        var p := store.authTokens[k];
        if p.persistence != SingleRequest && p.storageType == storage {
          items := items + [Obj([Member("unique_id", Str(p.uniqueId)), Member("session_token", Str(p.sessionToken)),
                                 Member("username", Str(p.username)), Member("csrf_token", Str(p.csrfToken)),
                                 Member("client_ip", Str(p.clientIp))])];
          assert Listing(order + [k], sessions) == Listing(order, sessions) + [SessionJson(k, sessions[k])];
          order := order + [k];
        }
        rest := rest - {k};
      }
    }

    method WriteData(storage: Storage)
      requires store.Valid() && !storage.CurrentService?
      modifies this`longTermFile, this`currentBmcFile
      ensures storage == LongTerm ==> IsWritten(longTermFile, Contents(), LongTerm) && currentBmcFile == old(currentBmcFile)
      ensures storage == CurrentBmc ==> IsWritten(currentBmcFile, Contents(), CurrentBmc) && longTermFile == old(longTermFile)
    {
      var data := [Member("revision", Int(REVISION))];
      if storage == LongTerm {
        data := data + [Member("auth_config", Obj(AuthMembers(store.authMethodsConfig)))];
        data := data + [Member("system_uuid", Str(systemUuid))];
        data := data + [Member("timeout", Int(store.timeoutInSeconds))];
      }
      var sessions := PopulateSessions(storage);
      data := data + [Member("sessions", Arr(sessions))];
      assert data == Members(DocOf(Contents(), storage, sessions).data);
      if storage == LongTerm {
        longTermFile := Parsed(Obj(data));
      } else {
        currentBmcFile := Parsed(Obj(data));
      }
    }

    method Commit()
      requires store.Valid()
      modifies this`longTermFile, this`currentBmcFile
      ensures IsWritten(longTermFile, Contents(), LongTerm) && IsWritten(currentBmcFile, Contents(), CurrentBmc)
    {
      WriteData(LongTerm);
      WriteData(CurrentBmc);
    }

    method RestoreSessions(elems: seq<Json>, storage: Storage, now: int)
      requires store.Valid()
      modifies store
      ensures store.Valid()
      ensures store.Contents() ==
              old(store.Contents()).(sessions := RestoreAll(old(store.Contents()).sessions, elems, storage, now))
    {
      for i := 0 to |elems|
        invariant store.Valid()
        invariant store.Contents() ==
                  old(store.Contents()).(sessions := RestoreAll(old(store.Contents()).sessions, elems[..i], storage, now))
      {
        assert elems[..i + 1][..i] == elems[..i];
        RestoreSession(elems[i], storage, now);
      }
      assert elems[..|elems|] == elems;
    }

    method RestoreSession(elem: Json, storage: Storage, now: int)
      requires store.Valid()
      modifies store
      ensures store.Valid()
      ensures store.Contents() ==
              old(store.Contents()).(sessions := RestoreOne(old(store.Contents()).sessions, elem, storage, now))
    {
      var session := SessionFromJson(elem, now);
      if session != null {
        session.storageType := storage;
        store.Restore(session);
      }
    }

    method ReadItem(item: Member, storage: Storage, now: int)
      requires store.Valid()
      modifies this`systemUuid, store
      ensures store.Valid() && Contents() == ReadMember(old(Contents()), item, storage, now)
    {
      if item.key == "system_uuid" {
        if item.value.Str? {
          systemUuid := item.value.s;
        }
      } else if item.key == "auth_config" {
        store.authMethodsConfig := AuthFromJson(item.value, store.authMethodsConfig);
      } else if item.key == "sessions" {
        RestoreSessions(Elements(item.value), storage, now);
      } else if item.key == "timeout" {
        if item.value.Int? {
          store.UpdateSessionTimeout(item.value.n);
        }
      }
    }

    method ReadItems(items: seq<Member>, storage: Storage, now: int)
      requires store.Valid()
      modifies this`systemUuid, store
      ensures store.Valid() && Contents() == ReadMembers(old(Contents()), items, storage, now)
    {
      for i := 0 to |items|
        invariant store.Valid()
        invariant Contents() == ReadMembers(old(Contents()), items[..i], storage, now)
      {
        ReadOneMore(old(Contents()), items, i, storage, now);
        ReadItem(items[i], storage, now);
      }
      assert items[..|items|] == items;
    }

    /** One file; the identifier to use if none is found is given. */
    method ReadOne(storage: Storage, newUuid: string, now: int)
      requires store.Valid() && !storage.CurrentService?
      modifies this, store
      ensures store.Valid()
      ensures var doc := if storage == LongTerm then old(longTermFile) else old(currentBmcFile);
              && Contents() == ReadFile(old(Contents()), doc, storage, newUuid, now)
              && if MakesUuid(old(Contents()), doc, storage, now) then
                   IsWritten(longTermFile, Contents(), LongTerm) && IsWritten(currentBmcFile, Contents(), CurrentBmc)
                 else longTermFile == old(longTermFile) && currentBmcFile == old(currentBmcFile)
    {
      var doc := if storage == LongTerm then longTermFile else currentBmcFile;
      if doc.Corrupt? {
        return;
      }
      if doc.Parsed? {
        ReadItems(Members(doc.data), storage, now);
      }
      assert Contents() == ReadDoc(old(Contents()), doc, storage, now);
      EnsureUuid(newUuid);
    }

    method EnsureUuid(newUuid: string)
      requires store.Valid()
      modifies this
      ensures old(systemUuid) == "" ==>
                && Contents() == old(Contents()).(uuid := newUuid)
                && IsWritten(longTermFile, Contents(), LongTerm) && IsWritten(currentBmcFile, Contents(), CurrentBmc)
      ensures old(systemUuid) != "" ==>
                && Contents() == old(Contents())
                && longTermFile == old(longTermFile) && currentBmcFile == old(currentBmcFile)
    {
      if systemUuid == "" {
        systemUuid := newUuid;
        Commit();
      }
    }

    /** Both files, the long-term one first. */
    method ReadData(newUuid: string, now: int)
      requires store.Valid() && newUuid != ""
      modifies this, store
      ensures store.Valid()
      ensures Contents() == ReadBoth(old(Contents()), old(longTermFile), old(currentBmcFile), newUuid, now)
    {
      ReadOne(LongTerm, newUuid, now);
      if MakesUuid(old(Contents()), old(longTermFile), LongTerm, now) {
        ReadingWrittenChangesNothing(Contents(), currentBmcFile, CurrentBmc, newUuid, now);
      }
      ReadOne(CurrentBmc, newUuid, now);
    }
  }

  // ---------------------------------------------------------------------------------------------
  // What the members of a file say, whatever their order.

  lemma MemberIsRead(members: seq<Member>, key: string, v: Json, kind: Kind)
    requires DistinctKeys(members)
    ensures Member(key, v) in members && IsKind(v, kind) ==> LastOf(members, key, kind) == v
  {
    if Member(key, v) in members && IsKind(v, kind) {
      var i :| 0 <= i < |members| && members[i] == Member(key, v);
      LastIsOnly(members, i, kind);
    }
  }

  lemma {:induction false} NoMemberIsRead(members: seq<Member>, key: string, kind: Kind)
    requires forall i | 0 <= i < |members| :: members[i].key != key
    ensures LastOf(members, key, kind) == Null
  {
    if members != [] { NoMemberIsRead(members[..|members| - 1], key, kind); }
  }

  /** The session that an element spells out, by the names of its texts. */
  lemma SessionIsRead(members: seq<Member>, token: string, uniqueId: string, username: string, csrfToken: string,
                      clientIp: string, storage: Storage, now: int)
    requires DistinctKeys(members)
    requires Member("unique_id", Str(uniqueId)) in members && Member("username", Str(username)) in members
    requires Member("session_token", Str(token)) in members && Member("csrf_token", Str(csrfToken)) in members
    requires Member("client_ip", Str(clientIp)) in members
    ensures var (t, r) := Spelled(Obj(members), storage, now);
            && t == token && r.uniqueId == uniqueId && r.username == username && r.csrfToken == csrfToken
            && r.clientIp == clientIp && r.persistence.Timeout? && r.lastUpdated == now && r.storage == storage
  {
    MemberIsRead(members, "unique_id", Str(uniqueId), Text);
    MemberIsRead(members, "username", Str(username), Text);
    MemberIsRead(members, "session_token", Str(token), Text);
    MemberIsRead(members, "csrf_token", Str(csrfToken), Text);
    MemberIsRead(members, "client_ip", Str(clientIp), Text);
  }

  /** Without an address it is restored all the same, without one of the other four texts it is not. */
  lemma MissingTextIsRead(members: seq<Member>, key: string, sessions: map<string, Record>, storage: Storage, now: int)
    requires forall i | 0 <= i < |members| :: members[i].key != key
    ensures key == "client_ip" ==> Spelled(Obj(members), storage, now).1.clientIp == ""
    ensures key in ["unique_id", "username", "session_token", "csrf_token"] ==>
              RestoreOne(sessions, Obj(members), storage, now) == sessions
  {
    NoMemberIsRead(members, key, Text);
  }

  /** The switches, by their names; one that is not there stays as it is. */
  lemma SwitchesAreRead(auth: Auth, members: seq<Member>, b: bool)
    requires DistinctKeys(members)
    ensures Member("XToken", Bool(b)) in members ==> AuthOf(auth, members).xtoken == b
    ensures Member("Cookie", Bool(b)) in members ==> AuthOf(auth, members).cookie == b
    ensures Member("SessionToken", Bool(b)) in members ==> AuthOf(auth, members).sessionToken == b
    ensures Member("BasicAuth", Bool(b)) in members ==> AuthOf(auth, members).basic == b
    ensures Member("TLS", Bool(b)) in members ==> AuthOf(auth, members).tls == b
  {
    MemberIsRead(members, "XToken", Bool(b), Flag);
    MemberIsRead(members, "Cookie", Bool(b), Flag);
    MemberIsRead(members, "SessionToken", Bool(b), Flag);
    MemberIsRead(members, "BasicAuth", Bool(b), Flag);
    MemberIsRead(members, "TLS", Bool(b), Flag);
  }

  lemma OneMemberIsRead(m: Memory, item: Member, storage: Storage, now: int)
    ensures var read := ReadMember(m, item, storage, now);
            && read.uuid == (if item.key == "system_uuid" && item.value.Str? then item.value.s else m.uuid)
            && read.store.timeout == (if item.key == "timeout" && item.value.Int? then item.value.n else m.store.timeout)
            && read.store.auth ==
               (if item.key == "auth_config" then AuthOf(m.store.auth, Members(item.value)) else m.store.auth)
  {
    assert |"timeout"| == 7 && |"system_uuid"| == 11 && |"sessions"| == 8 && "auth_config"[0] == 'a' && "system_uuid"[0] == 's';
  }

  predicate HasKey(items: seq<Member>, key: string) { exists i | 0 <= i < |items| :: items[i].key == key }

  lemma HasKeyOneMore(items: seq<Member>, key: string)
    requires items != []
    ensures HasKey(items, key) <==> HasKey(items[..|items| - 1], key) || items[|items| - 1].key == key
  {
    if HasKey(items[..|items| - 1], key) {
      var i :| 0 <= i < |items| - 1 && items[..|items| - 1][i].key == key;
      assert items[i].key == key;
    }
    if HasKey(items, key) {
      var i :| 0 <= i < |items| && items[i].key == key;
      if i < |items| - 1 { assert items[..|items| - 1][i].key == key; }
    }
  }

  lemma {:induction false} KeptWithoutKey(m: Memory, items: seq<Member>, storage: Storage, now: int)
    ensures var read := ReadMembers(m, items, storage, now);
            && (!HasKey(items, "system_uuid") ==> read.uuid == m.uuid)
            && (!HasKey(items, "timeout") ==> read.store.timeout == m.store.timeout)
            && (!HasKey(items, "auth_config") ==> read.store.auth == m.store.auth)
            && (!HasKey(items, "sessions") ==> read.store.sessions == m.store.sessions)
  {
    if items != [] {
      var n := |items| - 1;
      var before := ReadMembers(m, items[..n], storage, now);
      KeptWithoutKey(m, items[..n], storage, now);
      HasKeyOneMore(items, "system_uuid");
      HasKeyOneMore(items, "timeout");
      HasKeyOneMore(items, "auth_config");
      HasKeyOneMore(items, "sessions");
      OneMemberIsRead(before, items[n], storage, now);
      ReadMemberSessions(before, items[n], storage, now);
    }
  }

  /** What reading a file takes from one of its members, by the member's name. */
  lemma {:induction false} MembersAreRead(m: Memory, items: seq<Member>, item: Member, storage: Storage, now: int)
    requires DistinctKeys(items) && item in items
    ensures var read := ReadDoc(m, Parsed(Obj(items)), storage, now);
            && (item.key == "system_uuid" && item.value.Str? ==> read.uuid == item.value.s)
            && (item.key == "timeout" && item.value.Int? ==> read.store.timeout == item.value.n)
            && (item.key == "auth_config" ==> read.store.auth == AuthOf(m.store.auth, Members(item.value)))
            && (item.key == "sessions" ==>
                  read.store.sessions == RestoreAll(m.store.sessions, Elements(item.value), storage, now))
    decreases |items|
  {
    var n := |items| - 1;
    var before := ReadMembers(m, items[..n], storage, now);
    OneMemberIsRead(before, items[n], storage, now);
    ReadMemberSessions(before, items[n], storage, now);
    if item == items[n] {
      assert !HasKey(items[..n], item.key);
      KeptWithoutKey(m, items[..n], storage, now);
    } else {
      MembersAreRead(m, items[..n], item, storage, now);
    }
  }
}
