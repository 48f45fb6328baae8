/** The in-browser mock store of frontend/src/api2.ts: one database object of eight
    tables of JSON records, which every call reads, changes in place and writes back.
    The model keeps the database in memory; `Date.now()` ids come in as `freshId`. */
module LocalStore {
  import opened Js
  import opened Entities
  import opened Records
  import FrontendScheduleView

  /** `u.username === username && u.password === password`. */
  predicate Credentials(u: Rec, username: string, password: string) {
    Get(u, "username") == Str(username) && Get(u, "password") == Str(password)
  }

  /** Some user already has this username (compared strictly, so an absent username
      matches users without one). */
  predicate UsernameTaken(users: seq<Rec>, name: JsValue) {
    FindIndex((u: Rec) => Get(u, "username") == name, users) != -1
  }

  lemma UsernameTakenSpec(users: seq<Rec>, name: JsValue)
    ensures UsernameTaken(users, name) <==> exists i :: 0 <= i < |users| && Get(users[i], "username") == name
  {
  }

  /** `{ id: String(Date.now()), ...registerData, role: UserRole.USER }`. */
  function NewUser(registerData: Rec, freshId: string): Rec {
    Spread(Spread(map["id" := Str(freshId)], registerData), map["role" := Str("USER")])
  }

  /** `{ id: String(Date.now()), ...data }`: an id in the data wins over the fresh one. */
  function NewRecord(data: Rec, freshId: string): Rec {
    Spread(map["id" := Str(freshId)], data)
  }

  /** `{ id: String(Date.now()), ...data, status: 'PENDING' }`. */
  function NewRequest(data: Rec, freshId: string): Rec {
    Spread(NewRecord(data, freshId), map["status" := Str("PENDING")])
  }

  /** A registered user has the role USER whatever the form says, keeps every other field
      of the form, and can log in with the username and password of the form. */
  lemma NewUserFields(registerData: Rec, freshId: string, key: string)
    ensures Get(NewUser(registerData, freshId), "role") == Str("USER")
    ensures key != "role" && key != "id" ==> Get(NewUser(registerData, freshId), key) == Get(registerData, key)
    ensures Get(NewUser(registerData, freshId), "id") == if "id" in registerData then registerData["id"] else Str(freshId)
    ensures forall n, p :: Credentials(registerData, n, p) ==> Credentials(NewUser(registerData, freshId), n, p)
  {
  }

  /** Every created booking or borrowing request is pending, whatever the data says, and
      keeps every other field of the data. */
  lemma NewRequestFields(data: Rec, freshId: string, key: string)
    ensures Get(NewRequest(data, freshId), "status") == Str("PENDING")
    ensures key != "status" && key != "id" ==> Get(NewRequest(data, freshId), key) == Get(data, key)
  {
  }

  /** The index `findIndex`/`find` with `String(x.id) === String(id)` picks. */
  function IdIndex(rs: seq<Rec>, id: string): (i: int)
    ensures -1 <= i < |rs|
    ensures i >= 0 ==> HasIdText(rs[i], id) && forall j :: 0 <= j < i ==> !HasIdText(rs[j], id)
    ensures i == -1 <==> forall j :: 0 <= j < |rs| ==> !HasIdText(rs[j], id)
  {
    FindIndex((r: Rec) => HasIdText(r, id), rs)
  }

  /** The records whose id text is not `id`: `filter(i => String(i.id) !== String(id))`. */
  function WithoutId(rs: seq<Rec>, id: string): seq<Rec> {
    Filter((r: Rec) => !HasIdText(r, id), rs)
  }

  /** Deleting removes exactly the records with that id, keeps the others in order, and
      leaves the table as long as before exactly when no record has the id. */
  lemma WithoutIdSpec(rs: seq<Rec>, id: string, r: Rec)
    ensures r in WithoutId(rs, id) <==> r in rs && !HasIdText(r, id)
    ensures IsSubsequence(WithoutId(rs, id), rs)
    ensures |WithoutId(rs, id)| == |rs| <==> IdIndex(rs, id) == -1
    ensures IdIndex(rs, id) == -1 ==> WithoutId(rs, id) == rs
  {
    var p := (x: Rec) => !HasIdText(x, id);
    FilterMembers(p, rs, r);
    FilterIsSubsequence(p, rs);
    FilterDropsFailing(p, rs);
    if IdIndex(rs, id) == -1 {
      FilterKeepsAll(p, rs);
    } else {
      assert rs[IdIndex(rs, id)] in rs;
    }
  }

  /** `record.status = text` on the first record with id `id`, if there is one. */
  function WithStatus(rs: seq<Rec>, id: string, text: string): seq<Rec> {
    var i := IdIndex(rs, id);
    if i == -1 then rs else rs[i := rs[i]["status" := Str(text)]]
  }

  /** A status update changes only the status of the first record with that id; an
      unknown id changes nothing. */
  lemma WithStatusSpec(rs: seq<Rec>, id: string, text: string)
    ensures |WithStatus(rs, id, text)| == |rs|
    ensures forall j :: 0 <= j < |rs| && j != IdIndex(rs, id) ==> WithStatus(rs, id, text)[j] == rs[j]
    ensures IdIndex(rs, id) >= 0 ==>
      var i := IdIndex(rs, id);
      Get(WithStatus(rs, id, text)[i], "status") == Str(text)
      && forall k :: k != "status" ==> Get(WithStatus(rs, id, text)[i], k) == Get(rs[i], k)
    ensures (forall j :: 0 <= j < |rs| ==> !HasIdText(rs[j], id)) ==> WithStatus(rs, id, text) == rs
  {
  }

  /** The fields the borrowing cascade sets on the item: lent to 'Member' on approval,
      available again with no borrower on return or rejection. */
  function LendState(item: Rec, status: BorrowStatus): Rec {
    item["status_pinjam" := Str(if status == BorrowApproved then "Dipinjam" else "Tersedia")]
        ["user_peminjam" := if status == BorrowApproved then Str("Member") else Undefined]
  }

  /** `findIndex(i => String(i.id) === String(borrow.itemId))`. */
  function ItemIndex(items: seq<Rec>, itemId: JsValue): (k: int)
    ensures -1 <= k < |items|
  {
    FindIndex((it: Rec) => IdText(Get(it, "id")).Some? && IdText(Get(it, "id")) == IdText(itemId), items)
  }

  /** The database after updateItemBorrowingStatus. */
  function AfterBorrowStatus(t: map<string, seq<Rec>>, id: string, status: BorrowStatus): (t': map<string, seq<Rec>>)
    requires TableNames <= t.Keys
    ensures t'.Keys == t.Keys
    ensures |t'["items"]| == |t["items"]| && |t'["itemBorrowings"]| == |t["itemBorrowings"]|
  {
    var borrows := t["itemBorrowings"];
    var i := IdIndex(borrows, id);
    if i == -1 then t
    else
      var borrow := borrows[i]["status" := Str(BorrowStatusText(status))];
      var t1 := t["itemBorrowings" := borrows[i := borrow]];
      var k := ItemIndex(t["items"], Get(borrow, "itemId"));
      if status == BorrowPending || k == -1 then t1
      else t1["items" := t["items"][k := LendState(t["items"][k], status)]]
  }

  /** The cascade leaves every table but the borrowings and the items alone, sets the
      status of the borrowing with the id (and of no other), and changes nothing at all
      for an unknown borrowing id. */
  lemma AfterBorrowStatusFrame(t: map<string, seq<Rec>>, id: string, status: BorrowStatus)
    requires TableNames <= t.Keys
    ensures AfterBorrowStatus(t, id, status).Keys == t.Keys
    ensures forall name :: name in t && name != "items" && name != "itemBorrowings" ==> AfterBorrowStatus(t, id, status)[name] == t[name]
    ensures IdIndex(t["itemBorrowings"], id) == -1 ==> AfterBorrowStatus(t, id, status) == t
    ensures AfterBorrowStatus(t, id, status)["itemBorrowings"] == WithStatus(t["itemBorrowings"], id, BorrowStatusText(status))
  {
  }

  /** Approving lends the item the borrowing refers to to 'Member', returning or
      rejecting makes it available with no borrower, a pending status leaves it alone,
      and no other item changes. */
  lemma AfterBorrowStatusItems(t: map<string, seq<Rec>>, id: string, status: BorrowStatus)
    requires TableNames <= t.Keys
    ensures
      var i := IdIndex(t["itemBorrowings"], id);
      var k := if i == -1 then -1 else ItemIndex(t["items"], Get(t["itemBorrowings"][i], "itemId"));
      var items' := AfterBorrowStatus(t, id, status)["items"];
      |items'| == |t["items"]|
      && (forall j :: 0 <= j < |items'| && j != k ==> items'[j] == t["items"][j])
      && (k >= 0 && status == BorrowApproved ==>
            Get(items'[k], "status_pinjam") == Str("Dipinjam") && Get(items'[k], "user_peminjam") == Str("Member"))
      && (k >= 0 && (status == Returned || status == BorrowRejected) ==>
            Get(items'[k], "status_pinjam") == Str("Tersedia") && Get(items'[k], "user_peminjam") == Undefined)
      && (k >= 0 && status == BorrowPending ==> items'[k] == t["items"][k])
  {
    var i := IdIndex(t["itemBorrowings"], id);
    if i != -1 {
      var borrow := t["itemBorrowings"][i]["status" := Str(BorrowStatusText(status))];
      assert Get(borrow, "itemId") == Get(t["itemBorrowings"][i], "itemId");
    }
  }

  /** updateUser's `{ ...data.users[index], ...updateData }`: every key of the update
      overwrites, an undefined value included (writing the database back then drops that
      key, which reads as undefined just the same). */
  function UpdateUserAsWritten(user: Rec, updateData: Rec): (u: Rec)
    ensures forall k :: Get(u, k) == if k in updateData then updateData[k] else Get(user, k)
  {
    Spread(user, updateData)
  }

  /** The settings form sends `password: undefined` when no new password is typed. Were
      this store the client's backend, the spread would overwrite the stored password with
      undefined, and from then on no password would log that user in. */
  lemma SettingsSaveLocksOut(user: Rec, fullName: string)
    ensures forall n, p :: !Credentials(UpdateUserAsWritten(user, FrontendScheduleView.SettingsPatch(fullName, "")), n, p)
  {
    var patch := FrontendScheduleView.SettingsPatch(fullName, "");
    assert Get(UpdateUserAsWritten(user, patch), "password") == Undefined;
  }

  /** The fields of an update that carry a value; undefined ones are left out, as the
      server's user update skips a missing password. */
  function Defined(updateData: Rec): (d: Rec)
    ensures forall k :: k in d <==> k in updateData && updateData[k] != Undefined
  {
    map k | k in updateData && updateData[k] != Undefined :: updateData[k]
  }

  /** The user update as evidently intended: supplied values overwrite, undefined ones
      keep the stored field. */
  function PatchUser(user: Rec, updateData: Rec): (u: Rec)
    ensures u.Keys == user.Keys + Defined(updateData).Keys
    ensures forall k :: k in updateData && updateData[k] == Undefined ==> Get(u, k) == Get(user, k)
  {
    Spread(user, Defined(updateData))
  }

  /** The intended update and the update as written differ only on undefined values: an
      update without any is applied the same way by both. */
  lemma PatchAgreesWhenDefined(user: Rec, updateData: Rec)
    requires forall k :: k in updateData ==> updateData[k] != Undefined
    ensures PatchUser(user, updateData) == UpdateUserAsWritten(user, updateData)
  {
    assert Defined(updateData) == updateData;
  }

  lemma PatchUserGet(user: Rec, updateData: Rec, key: string)
    ensures Get(PatchUser(user, updateData), key) ==
      if Get(updateData, key) != Undefined then Get(updateData, key) else Get(user, key)
  {
  }

  /** With the corrected update, saving the settings renames the user and keeps the old
      password when none was typed, or sets the typed one. */
  lemma SettingsSaveKeepsLogin(user: Rec, fullName: string, password: string, username: string, previous: string)
    requires Credentials(user, username, previous)
    ensures Get(PatchUser(user, FrontendScheduleView.SettingsPatch(fullName, password)), "fullName") == Str(fullName)
    ensures Credentials(PatchUser(user, FrontendScheduleView.SettingsPatch(fullName, password)), username,
                        if password == "" then previous else password)
  {
    var patch := FrontendScheduleView.SettingsPatch(fullName, password);
    PatchUserGet(user, patch, "password");
    PatchUserGet(user, patch, "username");
    PatchUserGet(user, patch, "fullName");
  }

  class Store {
    var tables: map<string, seq<Rec>>

    /** The database has its eight tables. */
    predicate Valid()
      reads this
    {
      TableNames <= tables.Keys
    }

    constructor (initial: map<string, seq<Rec>>)
      requires TableNames <= initial.Keys
      ensures Valid() && tables == initial
    {
      tables := initial;
    }

    /** login: the first user with both the username and the password; none when no
        user has both. */
    function Login(username: string, password: string): (r: Option<Rec>)
      reads this
      requires Valid()
      ensures r.Some? <==> exists i :: 0 <= i < |tables["users"]| && Credentials(tables["users"][i], username, password)
      ensures r.Some? ==> r.value in tables["users"] && Credentials(r.value, username, password)
    {
      var i := FindIndex((u: Rec) => Credentials(u, username, password), tables["users"]);
      if i == -1 then None else Some(tables["users"][i])
    }

    /** register: refuse a taken username, otherwise append the new user. */
    method Register(registerData: Rec, freshId: string) returns (r: Result<string>)
      requires Valid()
      modifies this
      ensures Valid()
      ensures UsernameTaken(old(tables["users"]), Get(registerData, "username")) ==>
        r == Err("Username sudah digunakan") && tables == old(tables)
      ensures !UsernameTaken(old(tables["users"]), Get(registerData, "username")) ==>
        r == Ok("Registrasi berhasil")
        && tables == old(tables)["users" := old(tables["users"]) + [NewUser(registerData, freshId)]]
    {
      var users := tables["users"];
      if UsernameTaken(users, Get(registerData, "username")) {
        return Err("Username sudah digunakan");
      }
      tables := tables["users" := users + [NewUser(registerData, freshId)]];
      return Ok("Registrasi berhasil");
    }

    /** updateUser: spread the update over the first user with the id. */
    method UpdateUser(id: string, updateData: Rec)
      requires Valid()
      modifies this
      ensures Valid()
      ensures
        var i := IdIndex(old(tables["users"]), id);
        tables == if i == -1 then old(tables)
                  else old(tables)["users" := old(tables["users"])[i := UpdateUserAsWritten(old(tables["users"])[i], updateData)]]
    {
      var users := tables["users"];
      var index := IdIndex(users, id);
      if index != -1 {
        tables := tables["users" := users[index := UpdateUserAsWritten(users[index], updateData)]];
      }
    }

    method DeleteUser(id: string)
      requires Valid()
      modifies this
      ensures Valid()
      ensures tables == old(tables)["users" := WithoutId(old(tables["users"]), id)]
    {
      tables := tables["users" := WithoutId(tables["users"], id)];
    }

    /** createBooking: append a pending booking and return it. */
    method CreateBooking(bookingData: Rec, freshId: string) returns (booking: Rec)
      requires Valid()
      modifies this
      ensures Valid()
      ensures booking == NewRequest(bookingData, freshId)
      ensures tables == old(tables)["bookings" := old(tables["bookings"]) + [booking]]
    {
      booking := NewRequest(bookingData, freshId);
      tables := tables["bookings" := tables["bookings"] + [booking]];
    }

    method UpdateBookingStatus(id: string, status: BookingStatus)
      requires Valid()
      modifies this
      ensures Valid()
      ensures tables == old(tables)["bookings" := WithStatus(old(tables["bookings"]), id, BookingStatusText(status))]
    {
      var bookings := tables["bookings"];
      var i := IdIndex(bookings, id);
      if i != -1 {
        var booking := bookings[i];
        tables := tables["bookings" := bookings[i := booking["status" := Str(BookingStatusText(status))]]];
      }
    }

    /** createItemBorrowing: append a pending borrowing and return it. */
    method CreateItemBorrowing(borrowData: Rec, freshId: string) returns (borrow: Rec)
      requires Valid()
      modifies this
      ensures Valid()
      ensures borrow == NewRequest(borrowData, freshId)
      ensures tables == old(tables)["itemBorrowings" := old(tables["itemBorrowings"]) + [borrow]]
    {
      borrow := NewRequest(borrowData, freshId);
      tables := tables["itemBorrowings" := tables["itemBorrowings"] + [borrow]];
    }

    /** updateItemBorrowingStatus: set the borrowing's status and, for a decision or a
        return, the lending fields of the item it refers to. */
    method UpdateItemBorrowingStatus(id: string, status: BorrowStatus)
      requires Valid()
      modifies this
      ensures Valid()
      ensures tables == AfterBorrowStatus(old(tables), id, status)
    {
      var t := tables;
      var borrows := t["itemBorrowings"];
      var i := IdIndex(borrows, id);
      if i != -1 {
        var borrow := borrows[i]["status" := Str(BorrowStatusText(status))];
        t := t["itemBorrowings" := borrows[i := borrow]];
        if status == BorrowApproved || status == Returned || status == BorrowRejected {
          var items := t["items"];
          var itemIndex := ItemIndex(items, Get(borrow, "itemId"));
          if itemIndex != -1 {
            t := t["items" := items[itemIndex := LendState(items[itemIndex], status)]];
          }
        }
      }
      tables := t;
    }

    /** add: a table that does not exist is an error; otherwise append a record with a
        fresh id. */
    method Add(table: string, itemData: Rec, freshId: string) returns (r: Result<Rec>)
      requires Valid()
      modifies this
      ensures Valid()
      ensures table !in old(tables) ==>
        r == Err("Tabel " + table + " tidak ditemukan di penyimpanan lokal") && tables == old(tables)
      ensures table in old(tables) ==>
        r == Ok(NewRecord(itemData, freshId)) && tables == old(tables)[table := old(tables[table]) + [r.value]]
    {
      if table !in tables {
        return Err("Tabel " + table + " tidak ditemukan di penyimpanan lokal");
      }
      var newItem := NewRecord(itemData, freshId);
      tables := tables[table := tables[table] + [newItem]];
      return Ok(newItem);
    }

    /** update: merge the data into the first record with the id; an unknown table or
        id changes nothing. */
    method Update(table: string, id: string, itemData: Rec)
      requires Valid()
      modifies this
      ensures Valid()
      ensures table !in old(tables) || IdIndex(old(tables[table]), id) == -1 ==> tables == old(tables)
      ensures table in old(tables) && IdIndex(old(tables[table]), id) != -1 ==>
        var i := IdIndex(old(tables[table]), id);
        tables == old(tables)[table := old(tables[table])[i := Spread(old(tables[table])[i], itemData)]]
    {
      if table in tables {
        var rows := tables[table];
        var index := IdIndex(rows, id);
        if index != -1 {
          tables := tables[table := rows[index := Spread(rows[index], itemData)]];
        }
      }
    }

    /** delete: drop every record with the id; an unknown table changes nothing. */
    method Delete(table: string, id: string)
      requires Valid()
      modifies this
      ensures Valid()
      ensures table !in old(tables) ==> tables == old(tables)
      ensures table in old(tables) ==> tables == old(tables)[table := WithoutId(old(tables[table]), id)]
    {
      if table in tables {
        tables := tables[table := WithoutId(tables[table], id)];
      }
    }
  }

  /** A fresh registration can log in straight away with the password it chose. */
  lemma RegisterThenLogin(users: seq<Rec>, registerData: Rec, freshId: string, username: string, password: string)
    requires Credentials(registerData, username, password)
    ensures exists i :: (0 <= i < |users + [NewUser(registerData, freshId)]|
      && Credentials((users + [NewUser(registerData, freshId)])[i], username, password))
  {
    NewUserFields(registerData, freshId, "username");
    assert (users + [NewUser(registerData, freshId)])[|users|] == NewUser(registerData, freshId);
  }
}
