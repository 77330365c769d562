/** `GET /api/users`: every user once, without the password hash, newest
    account first. */
module UserListing {
  import opened Sorting
  import opened UserSchema

  /** One row of the user list: the fields `GET /api/users` selects (no
      password hash). */
  datatype UserSummary = UserSummary(
    id: string,
    fullName: string,
    email: string,
    role: Role,
    status: AccountStatus,
    createdAt: nat,
    updatedAt: nat)

  function SummarizeUser(id: string, u: User): UserSummary {
    UserSummary(id, u.fullName, u.email, u.role, u.status, u.createdAt, u.updatedAt)
  }

  function CreatedKey(s: UserSummary): int {
    s.createdAt
  }

  function UserRows(store: UserStore): set<UserSummary> {
    set id | id in store :: SummarizeUser(id, store[id])
  }

  /** `GET /api/users`: every user once, newest account first. */
  method ListUsers(store: UserStore) returns (r: seq<UserSummary>)
    ensures SortedDesc(r, CreatedKey)
    ensures |r| == |store|
    ensures forall k :: 0 <= k < |r| ==> r[k].id in store && r[k] == SummarizeUser(r[k].id, store[r[k].id])
    ensures forall id :: id in store ==> SummarizeUser(id, store[id]) in r
  {
    var rows := UserRows(store);
    var listed := SetToSeq(rows);
    r := SortDesc(listed, CreatedKey);
    ListedOnceDistinct(r, rows);
    assert forall k :: 0 <= k < |r| ==> r[k] in rows;
    RowsCount(store);
    assert |r| == |multiset(r)| == |multiset(rows)| == |rows|;
  }

  /** One row per user: the rows are as many as the users. */
  lemma RowsCount(store: UserStore)
    ensures |UserRows(store)| == |store|
  {
    var rows := UserRows(store);
    var keys := store.Keys;
    assert rows == set id | id in keys :: SummarizeUser(id, store[id]);
    InjectiveImageSize(store, keys);
  }

  lemma {:induction false} InjectiveImageSize(store: UserStore, keys: set<string>)
    requires keys <= store.Keys
    ensures |set id | id in keys :: SummarizeUser(id, store[id])| == |keys|
    decreases |keys|
  {
    if keys != {} {
      var k :| k in keys;
      var rest := keys - {k};
      InjectiveImageSize(store, rest);
      var img := set id | id in keys :: SummarizeUser(id, store[id]);
      var imgRest := set id | id in rest :: SummarizeUser(id, store[id]);
      assert img == imgRest + {SummarizeUser(k, store[k])};
      assert SummarizeUser(k, store[k]) !in imgRest;
    }
  }
}
