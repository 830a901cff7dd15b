/** The app's friend lists. `FriendsDatabase` keeps them in a miniLock file the user encrypts to
    themselves; `UserDatabase` keeps them next to the user's preferences. Both keep the list
    sorted by name with the same `insertSorted`. Names are compared with
    `localizedCaseInsensitiveCompare`, which depends on the locale, so the comparison is a
    parameter here. */
module FriendLists {
  import opened Wrappers
  import opened Bytes
  import opened FileFormat
  import opened Primitives
  import opened Identity
  import opened Friends
  import opened Encryptor
  import opened Decryptor
  import RoundTrip
  import Container

  /** `a.localizedCaseInsensitiveCompare(b) == .orderedDescending`: name `a` sorts after `b`. */
  type After = (string, string) -> bool

  /** A comparison that orders names: never both ways round, and when `a` sorts after `c`, every
      `b` sorts before `a` or after `c` (a strict weak order). */
  ghost predicate WeakOrder(after: After) {
    && (forall a, b :: after(a, b) ==> !after(b, a))
    && (forall a, b, c :: after(a, c) ==> after(a, b) || after(b, c))
  }

  /** No friend's name sorts after the name of a friend further down the list. */
  predicate Sorted(friends: seq<Friend>, after: After) {
    forall j, k :: 0 <= j < k < |friends| ==> !after(friends[j].name, friends[k].name)
  }

  /** Reference definition of where a new friend goes: before the first friend whose name sorts
      after the new name, or at the end when there is none. */
  function InsertPosition(friends: seq<Friend>, name: string, after: After): (r: nat)
    ensures r <= |friends|
    ensures forall j :: 0 <= j < r ==> !after(friends[j].name, name)
    ensures r < |friends| ==> after(friends[r].name, name)
  {
    if |friends| == 0 || after(friends[0].name, name) then 0
    else
      var r := 1 + InsertPosition(friends[1..], name, after);
      assert forall j :: 1 <= j < r ==> friends[j] == friends[1..][j - 1];
      r
  }

  /** The list with the new friend at its position. */
  function Inserted(friends: seq<Friend>, friend: Friend, after: After): seq<Friend> {
    var i := InsertPosition(friends, friend.name, after);
    friends[..i] + [friend] + friends[i..]
  }

  /** `insertSorted(friend:)` of both databases: walk the list and insert before the first
      friend whose name compares descending to the new one; append when there is none. */
  method InsertSorted(friends: seq<Friend>, friend: Friend, after: After) returns (r: seq<Friend>)
    ensures var i := InsertPosition(friends, friend.name, after);
      && |r| == |friends| + 1
      && r[i] == friend
      && r[..i] == friends[..i]
      && r[i + 1..] == friends[i..]
  {
    for i := 0 to |friends|
      invariant forall j :: 0 <= j < i ==> !after(friends[j].name, friend.name)
    {
      if after(friends[i].name, friend.name) {
        r := friends[..i] + [friend] + friends[i..];
        assert r[..i] == friends[..i] && r[i + 1..] == friends[i..];
        return;
      }
    }
    r := friends + [friend];
    assert r[..|friends|] == friends;
  }

  /** The inserted list is the old one with one more friend: as a multiset, and with the old
      friends in their old order once the new one is taken out. */
  lemma InsertedAddsOne(friends: seq<Friend>, friend: Friend, after: After)
    ensures var r := Inserted(friends, friend, after);
      var i := InsertPosition(friends, friend.name, after);
      && multiset(r) == multiset(friends) + multiset{friend}
      && r[i] == friend
      && r[..i] + r[i + 1..] == friends
  {
    var i := InsertPosition(friends, friend.name, after);
    var a, b := friends[..i], friends[i..];
    assert a + b == friends;
    assert Inserted(friends, friend, after) == a + [friend] + b;
    assert |a| == i;
    Splice(a, friend, b);
  }

  /** Splicing `x` between `a` and `b` adds it to the multiset; removing it gives `a + b` back. */
  lemma Splice<T>(a: seq<T>, x: T, b: seq<T>)
    ensures var r := a + [x] + b;
      && multiset(r) == multiset(a + b) + multiset{x}
      && r[|a|] == x
      && r[..|a|] + r[|a| + 1..] == a + b
  {
    var r := a + [x] + b;
    assert r[..|a|] == a && r[|a| + 1..] == b;
  }

  /** A new friend goes after every friend whose name does not sort after its own (equal names
      included, so the insertion is stable) and before every friend whose name does. */
  lemma InsertStable(friends: seq<Friend>, friend: Friend, after: After)
    requires WeakOrder(after) && Sorted(friends, after)
    ensures forall j :: 0 <= j < |friends| ==>
      (j < InsertPosition(friends, friend.name, after) <==> !after(friends[j].name, friend.name))
  {
    var i := InsertPosition(friends, friend.name, after);
    forall j | i <= j < |friends|
      ensures after(friends[j].name, friend.name)
    {
      if j > i {
        assert !after(friends[i].name, friends[j].name);
        assert after(friends[i].name, friend.name) ==> after(friends[i].name, friends[j].name) || after(friends[j].name, friend.name);
      }
    }
  }

  /** Inserting into a sorted list keeps it sorted. */
  lemma InsertKeepsSorted(friends: seq<Friend>, friend: Friend, after: After)
    requires WeakOrder(after) && Sorted(friends, after)
    ensures Sorted(Inserted(friends, friend, after), after)
  {
    var i := InsertPosition(friends, friend.name, after);
    var r := Inserted(friends, friend, after);
    forall j, k | 0 <= j < k < |r|
      ensures !after(r[j].name, r[k].name)
    {
      if k == i {
        assert r[j] == friends[j];
      } else if j == i {
        // the friend at the insert position sorts after the new one and not after any later one
        var x, y := friends[k - 1], friends[i];
        assert r[k] == x;
        assert after(y.name, friend.name) && !after(friend.name, y.name);
        assert !after(y.name, x.name) by {
          if i < k - 1 { assert Sorted(friends, after); }
        }
        assert after(friend.name, x.name) ==> after(friend.name, y.name) || after(y.name, x.name);
      } else {
        var j', k' := if j < i then j else j - 1, if k < i then k else k - 1;
        assert r[j] == friends[j'] && r[k] == friends[k'] && j' < k';
      }
    }
  }

  /** The settings `UserDatabase` stores next to the friends; their content is not modelled. */
  datatype UserDatabase<Preferences> = UserDatabase(friends: seq<Friend>, preferences: Preferences)

  /** `UserDatabase.init()`: no friends and the default preferences. */
  function NewUserDatabase<Preferences>(defaults: Preferences): (r: UserDatabase<Preferences>)
    ensures r.friends == []
    ensures r.preferences == defaults
  {
    UserDatabase([], defaults)
  }

  /** `UserDatabase.insertSorted(friend:)`: the friend list grows by the friend at its sorted
      position and the preferences are left alone. */
  method InsertFriend<Preferences>(db: UserDatabase<Preferences>, friend: Friend, after: After)
    returns (r: UserDatabase<Preferences>)
    ensures r.preferences == db.preferences
    ensures r.friends == Inserted(db.friends, friend, after)
    ensures WeakOrder(after) && Sorted(db.friends, after) ==> Sorted(r.friends, after)
  {
    var friends := InsertSorted(db.friends, friend, after);
    var i := InsertPosition(db.friends, friend.name, after);
    assert friends == friends[..i] + [friends[i]] + friends[i + 1..];
    r := db.(friends := friends);
    if WeakOrder(after) && Sorted(db.friends, after) {
      InsertKeepsSorted(db.friends, friend, after);
    }
  }
  /** The friends after one `insertSorted` call per added friend, in the order they are added. */
  function InsertedAll(friends: seq<Friend>, adds: seq<Friend>, after: After): seq<Friend>
    decreases |adds|
  {
    if |adds| == 0 then friends else InsertedAll(Inserted(friends, adds[0], after), adds[1..], after)
  }

  /** Adding friends one at a time with `insertSorted`. */
  method InsertFriends<Preferences>(db: UserDatabase<Preferences>, adds: seq<Friend>, after: After)
    returns (r: UserDatabase<Preferences>)
    ensures r.preferences == db.preferences
    ensures r.friends == InsertedAll(db.friends, adds, after)
  {
    r := db;
    for i := 0 to |adds|
      invariant r.preferences == db.preferences
      invariant InsertedAll(db.friends, adds, after) == InsertedAll(r.friends, adds[i..], after)
    {
      assert adds[i..][1..] == adds[i + 1..];
      r := InsertFriend(r, adds[i], after);
    }
  }

  /** Inserting friends one at a time keeps a sorted list sorted and adds exactly those friends. */
  lemma {:induction false} InsertedAllSorted(friends: seq<Friend>, adds: seq<Friend>, after: After)
    requires WeakOrder(after) && Sorted(friends, after)
    ensures Sorted(InsertedAll(friends, adds, after), after)
    ensures multiset(InsertedAll(friends, adds, after)) == multiset(friends) + multiset(adds)
    decreases |adds|
  {
    if |adds| > 0 {
      InsertKeepsSorted(friends, adds[0], after);
      InsertedAddsOne(friends, adds[0], after);
      InsertedAllSorted(Inserted(friends, adds[0], after), adds[1..], after);
      assert adds == [adds[0]] + adds[1..];
    }
  }

  /** A new user database keeps its friends in order: whatever friends are then added with
      `insertSorted`, the list is sorted by name and holds exactly the friends added. */
  lemma NewUserDatabaseStaysSorted<Preferences>(defaults: Preferences, adds: seq<Friend>, after: After)
    requires WeakOrder(after)
    ensures var friends := InsertedAll(NewUserDatabase(defaults).friends, adds, after);
      Sorted(friends, after) && multiset(friends) == multiset(adds)
  {
    InsertedAllSorted([], adds, after);
  }


  /** The errors `FriendsDatabase` throws, and those of the miniLock operations it calls. */
  datatype DatabaseError = JsonMappingError | DatabaseEncryptedBySomebodyElse | InvalidDbURL | MiniLockFailure(failure: Failure)

  /** `Array<Friend>(JSONString:)` after the JSON is parsed: each record becomes a friend, and a
      record whose id text is not a valid id is dropped (ObjectMapper's array mapping skips the
      elements whose `init(map:)` throws). */
  function FriendsOf(p: Primitives, records: seq<FriendRecord>): (r: seq<Friend>)
    ensures |r| <= |records|
    ensures forall k :: 0 <= k < |r| ==> Valid(p, r[k].id)
  {
    if |records| == 0 then []
    else
      var first := match FromRecord(p, records[0]) case None => [] case Some(f) => [f];
      first + FriendsOf(p, records[1..])
  }

  /** The records `friends.toJSONString()` writes, one per friend in order. */
  function Records(friends: seq<Friend>): (r: seq<FriendRecord>)
    ensures |r| == |friends|
  {
    if |friends| == 0 then [] else [ToRecord(friends[0])] + Records(friends[1..])
  }

  /** Friends with valid ids are read back from their records unchanged and in order. */
  lemma {:induction false} FriendsOfRecords(p: Primitives, friends: seq<Friend>)
    requires forall k :: 0 <= k < |friends| ==> Valid(p, friends[k].id)
    ensures FriendsOf(p, Records(friends)) == friends
  {
    if |friends| > 0 {
      RecordRoundTrip(p, friends[0]);
      FriendsOfRecords(p, friends[1..]);
      assert Records(friends)[1..] == Records(friends[1..]);
      assert [friends[0]] + friends[1..] == friends;
    }
  }

  /** `updateFriendsFromDb()`: decrypt the database file in memory, insist that the user sent it
      (`databaseEncryptedBySomebodyElse` otherwise), then read the UTF-8 JSON array of friends
      (`jsonMappingError` when either step fails). `file` is `None` when the file cannot be
      opened. */
  function UpdateFriendsFromDb(p: Primitives, file: Option<Bytes>, kp: KeyPair): (r: Result<seq<Friend>, DatabaseError>)
    requires p.StreamLawful()
    ensures r == Failure(DatabaseEncryptedBySomebodyElse) <==>
      && file.Some?
      && DecryptInMemory(p, file.value, kp).Success?
      && !SameId(DecryptInMemory(p, file.value, kp).value.sender, kp.publicId)
    ensures r.Success? ==>
      && file.Some?
      && DecryptInMemory(p, file.value, kp).Success?
      && SameId(DecryptInMemory(p, file.value, kp).value.sender, kp.publicId)
    ensures r.Success? ==> forall k :: 0 <= k < |r.value| ==> Valid(p, r.value[k].id)
  {
    match file
    case None => Failure(MiniLockFailure(FileSystem))
    case Some(bytes) =>
      match DecryptInMemory(p, bytes, kp)
      case Failure(e) => Failure(MiniLockFailure(e))
      case Success(decrypted) =>
        if !SameId(decrypted.sender, kp.publicId) then Failure(DatabaseEncryptedBySomebodyElse)
        else
          match p.utf8Decode(decrypted.data)
          case None => Failure(JsonMappingError)
          case Some(text) =>
            match p.friendsFromJson(text)
            case None => Failure(JsonMappingError)
            case Some(records) => Success(FriendsOf(p, records))
  }

  /** A `FriendsDatabase`: the key pair it is encrypted with and the friends it holds. */
  datatype FriendsDatabase = FriendsDatabase(keyPair: KeyPair, friends: seq<Friend>)

  /** `FriendsDatabase.init(url:keyPair:)`: `invalidDbURL` for a URL that is not a file URL;
      otherwise the friends loaded from the file, or none when loading fails (the error is
      swallowed by `try?`). */
  function OpenFriendsDatabase(p: Primitives, isFileUrl: bool, file: Option<Bytes>, kp: KeyPair)
    : (r: Result<FriendsDatabase, DatabaseError>)
    requires p.StreamLawful()
    ensures r.Failure? <==> !isFileUrl
    ensures r.Failure? ==> r.error == InvalidDbURL
    ensures r.Success? ==> r.value.keyPair == kp
    ensures r.Success? && UpdateFriendsFromDb(p, file, kp).Failure? ==> r.value.friends == []
    ensures r.Success? && UpdateFriendsFromDb(p, file, kp).Success? ==>
      r.value.friends == UpdateFriendsFromDb(p, file, kp).value
  {
    if !isFileUrl then Failure(InvalidDbURL)
    else
      var friends := match UpdateFriendsFromDb(p, file, kp) case Success(l) => l case Failure(_) => [];
      Success(FriendsDatabase(kp, friends))
  }

  /** `saveFriendListToDb()` up to the temporary file: the friends as a JSON array
      (`jsonMappingError` when that fails), its UTF-8 bytes encrypted by the user to the user
      alone. */
  function SaveFriendList(p: Primitives, db: FriendsDatabase, created: bool, tempCreated: bool, rand: Randomness)
    : (r: Result<Bytes, DatabaseError>)
    requires p.StreamLawful() && Drawn(rand, [db.keyPair.publicId])
    ensures r == Failure(JsonMappingError) <==> p.friendsToJson(Records(db.friends)).None?
    ensures r.Failure? && p.friendsToJson(Records(db.friends)).Some? ==> r.error.MiniLockFailure?
    ensures r.Success? ==> Container.IsEncryptedFile(true, r.value) == Success(true)
    ensures r.Success? ==> p.friendsToJson(Records(db.friends)).Some?
    ensures r.Success? ==> EncryptData(p, p.utf8Encode(p.friendsToJson(Records(db.friends)).value),
      db.keyPair, [db.keyPair.publicId], created, tempCreated, rand) == Success(r.value)
  {
    match p.friendsToJson(Records(db.friends))
    case None => Failure(JsonMappingError)
    case Some(json) =>
      match EncryptData(p, p.utf8Encode(json), db.keyPair, [db.keyPair.publicId], created, tempCreated, rand)
      case Failure(e) => Failure(MiniLockFailure(e))
      case Success(container) => Success(container)
  }

  /** The database file the app saves is the one it loads: encrypted by the user to the user, it
      passes the sender check and gives back the same friends in the same order. */
  lemma SaveLoadRoundTrip(p: Primitives, db: FriendsDatabase, created: bool, tempCreated: bool, rand: Randomness)
    requires RoundTrip.Delivery(p, db.keyPair, [db.keyPair.publicId], rand, db.keyPair)
    requires RoundTrip.HeaderFits(p, db.keyPair, [db.keyPair.publicId], rand)
    requires p.TextCodingLawful() && p.FriendsJsonLawful()
    requires forall k :: 0 <= k < |db.friends| ==> Valid(p, db.friends[k].id)
    requires SaveFriendList(p, db, created, tempCreated, rand).Success?
    ensures UpdateFriendsFromDb(p, Some(SaveFriendList(p, db, created, tempCreated, rand).value), db.keyPair)
      == Success(db.friends)
    ensures OpenFriendsDatabase(p, true, Some(SaveFriendList(p, db, created, tempCreated, rand).value), db.keyPair)
      == Success(db)
  {
    var kp := db.keyPair;
    var json := p.friendsToJson(Records(db.friends)).value;
    var container := SaveFriendList(p, db, created, tempCreated, rand).value;
    RoundTrip.DataRoundTrip(p, p.utf8Encode(json), kp, [kp.publicId], created, tempCreated, rand, kp);
    assert DecryptInMemory(p, container, kp) == Success(Decrypted(kp.publicId, p.utf8Encode(json)));
    FriendsOfRecords(p, db.friends);
  }
}
