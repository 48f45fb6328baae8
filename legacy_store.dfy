/** The older mock store of api.ts: the database tables and, kept apart from them, the
    list of users. Ids are compared strictly (`===`), there are no stored passwords (a
    user logs in with their username as password), and an approved borrowing records the
    borrower's full name on the item. `Date.now()` ids come in as `freshId`. */
module LegacyStore {
  import opened Js
  import opened Entities
  import opened Records

  /** The tables of this store's database: those of the `Database` type except "users",
      since the users are kept under their own storage key. */
  const LegacyTables: set<string> := TableNames - {"users"}

  /** The position `find(x => x.id === id)` stops at, or -1. */
  function IdIndex(rs: seq<Rec>, id: JsValue): (i: int)
    ensures -1 <= i < |rs|
    ensures i >= 0 ==> Get(rs[i], "id") == id && forall j :: 0 <= j < i ==> Get(rs[j], "id") != id
    ensures i == -1 <==> forall j :: 0 <= j < |rs| ==> Get(rs[j], "id") != id
  {
    FindIndex((r: Rec) => Get(r, "id") == id, rs)
  }

  /** `filter(x => x.id !== id)`. */
  function WithoutId(rs: seq<Rec>, id: string): seq<Rec> {
    Filter((r: Rec) => !HasId(r, id), rs)
  }

  /** Deleting removes exactly the records whose id is the text `id` and keeps the rest
      in order. A numeric id is never equal to a text, so such a record stays. */
  lemma WithoutIdSpec(rs: seq<Rec>, id: string, r: Rec)
    ensures r in WithoutId(rs, id) <==> r in rs && Get(r, "id") != Str(id)
    ensures IsSubsequence(WithoutId(rs, id), rs)
    ensures |WithoutId(rs, id)| == |rs| <==> IdIndex(rs, Str(id)) == -1
  {
    var p := (x: Rec) => !HasId(x, id);
    FilterMembers(p, rs, r);
    FilterIsSubsequence(p, rs);
    FilterDropsFailing(p, rs);
    if IdIndex(rs, Str(id)) != -1 {
      assert rs[IdIndex(rs, Str(id))] in rs;
    }
  }

  /** `{ ...data, id: String(Date.now()) }`: here the fresh id always wins. */
  function NewRecord(data: Rec, freshId: string): (r: Rec)
    ensures Get(r, "id") == Str(freshId)
    ensures forall k :: k != "id" ==> Get(r, k) == Get(data, k)
  {
    Spread(data, map["id" := Str(freshId)])
  }

  /** What createBooking and createItemBorrowing hand to add: the data with a pending
      status. */
  function PendingRequest(data: Rec): (r: Rec)
    ensures Get(r, "status") == Str("PENDING")
    ensures forall k :: k != "status" ==> Get(r, k) == Get(data, k)
  {
    Spread(data, map["status" := Str("PENDING")])
  }

  /** register's new user: only the username and full name of the form are kept. */
  function NewUser(data: Rec, freshId: string): (u: Rec)
    ensures u.Keys == {"id", "username", "role", "fullName"}
    ensures Get(u, "role") == Str("USER") && Get(u, "id") == Str(freshId)
    ensures Get(u, "username") == Get(data, "username") && Get(u, "fullName") == Get(data, "fullName")
  {
    map["id" := Str(freshId), "username" := Get(data, "username"), "role" := Str("USER"), "fullName" := Get(data, "fullName")]
  }

  /** The first user with the username. */
  function FindUser(users: seq<Rec>, username: JsValue): (r: Option<Rec>)
    ensures r.Some? <==> exists i :: 0 <= i < |users| && Get(users[i], "username") == username
    ensures r.Some? ==> r.value in users && Get(r.value, "username") == username
  {
    var i := FindIndex((u: Rec) => Get(u, "username") == username, users);
    if i == -1 then None else Some(users[i])
  }

  /** `item.user_peminjam = user ? user.fullName : 'Unknown'`. */
  function BorrowerName(users: seq<Rec>, userId: JsValue): (name: JsValue)
    ensures IdIndex(users, userId) == -1 ==> name == Str("Unknown")
    ensures IdIndex(users, userId) >= 0 ==> name == Get(users[IdIndex(users, userId)], "fullName")
  {
    var i := IdIndex(users, userId);
    if i == -1 then Str("Unknown") else Get(users[i], "fullName")
  }

  /** The item after a borrowing of it got `status`; a pending status leaves it alone. */
  function LendState(item: Rec, status: BorrowStatus, users: seq<Rec>, userId: JsValue): Rec {
    match status
    case BorrowApproved => item["status_pinjam" := Str("Dipinjam")]["user_peminjam" := BorrowerName(users, userId)]
    case Returned => item["status_pinjam" := Str("Tersedia")]["user_peminjam" := Undefined]
    case BorrowRejected => item["status_pinjam" := Str("Tersedia")]["user_peminjam" := Undefined]
    case BorrowPending => item
  }

  /** The tables after updateItemBorrowingStatus. */
  function AfterBorrowStatus(db: map<string, seq<Rec>>, users: seq<Rec>, id: string, status: BorrowStatus): (db': map<string, seq<Rec>>)
    requires LegacyTables <= db.Keys
    ensures db'.Keys == db.Keys
    ensures |db'["items"]| == |db["items"]| && |db'["itemBorrowings"]| == |db["itemBorrowings"]|
  {
    var borrows := db["itemBorrowings"];
    var i := IdIndex(borrows, Str(id));
    if i == -1 then db
    else
      var borrowing := borrows[i]["status" := Str(BorrowStatusText(status))];
      var db1 := db["itemBorrowings" := borrows[i := borrowing]];
      var k := IdIndex(db["items"], Get(borrowing, "itemId"));
      if k == -1 then db1
      else db1["items" := db["items"][k := LendState(db["items"][k], status, users, Get(borrowing, "userId"))]]
  }

  /** Only the borrowings and the items can change, and an unknown borrowing id changes
      nothing. */
  lemma AfterBorrowStatusFrame(db: map<string, seq<Rec>>, users: seq<Rec>, id: string, status: BorrowStatus)
    requires LegacyTables <= db.Keys
    ensures AfterBorrowStatus(db, users, id, status).Keys == db.Keys
    ensures forall name :: name in db && name != "items" && name != "itemBorrowings" ==>
      AfterBorrowStatus(db, users, id, status)[name] == db[name]
    ensures IdIndex(db["itemBorrowings"], Str(id)) == -1 ==> AfterBorrowStatus(db, users, id, status) == db
  {
  }

  /** The first borrowing with the id gets the status and keeps its position; the other
      borrowings are unchanged. */
  lemma AfterBorrowStatusBorrowing(db: map<string, seq<Rec>>, users: seq<Rec>, id: string, status: BorrowStatus)
    requires LegacyTables <= db.Keys
    ensures var i := IdIndex(db["itemBorrowings"], Str(id));
      var borrows' := AfterBorrowStatus(db, users, id, status)["itemBorrowings"];
      |borrows'| == |db["itemBorrowings"]|
      && (i >= 0 ==> borrows'[i] == db["itemBorrowings"][i]["status" := Str(BorrowStatusText(status))])
      && (forall j :: 0 <= j < |borrows'| && j != i ==> borrows'[j] == db["itemBorrowings"][j])
  {
  }

  /** On approval the borrowing's item is lent to the borrower's full name ('Unknown' when
      no user has the borrowing's user id); on return or rejection the item is available
      with no borrower; a missing item means no item changes, and no other item changes. */
  lemma AfterBorrowStatusItems(db: map<string, seq<Rec>>, users: seq<Rec>, id: string, status: BorrowStatus)
    requires LegacyTables <= db.Keys
    ensures
      var i := IdIndex(db["itemBorrowings"], Str(id));
      var k := if i == -1 then -1 else IdIndex(db["items"], Get(db["itemBorrowings"][i], "itemId"));
      var items' := AfterBorrowStatus(db, users, id, status)["items"];
      |items'| == |db["items"]|
      && (k == -1 ==> items' == db["items"])
      && (forall j :: 0 <= j < |items'| && j != k ==> items'[j] == db["items"][j])
      && (k >= 0 && status == BorrowApproved ==>
            Get(items'[k], "status_pinjam") == Str("Dipinjam")
            && Get(items'[k], "user_peminjam") == BorrowerName(users, Get(db["itemBorrowings"][i], "userId")))
      && (k >= 0 && (status == Returned || status == BorrowRejected) ==>
            Get(items'[k], "status_pinjam") == Str("Tersedia") && Get(items'[k], "user_peminjam") == Undefined)
  {
    var i := IdIndex(db["itemBorrowings"], Str(id));
    if i != -1 {
      var borrowing := db["itemBorrowings"][i]["status" := Str(BorrowStatusText(status))];
      assert Get(borrowing, "itemId") == Get(db["itemBorrowings"][i], "itemId");
      assert Get(borrowing, "userId") == Get(db["itemBorrowings"][i], "userId");
    }
  }

  /** The TypeErrors JavaScript raises for `undefined.push` and `undefined.filter`. */
  const PushOnUndefined := "Cannot read properties of undefined (reading 'push')"
  const FilterOnUndefined := "Cannot read properties of undefined (reading 'filter')"

  class Store {
    var db: map<string, seq<Rec>>
    var users: seq<Rec>

    /** The database has the tables of the initial data. */
    predicate Valid()
      reads this
    {
      LegacyTables <= db.Keys
    }

    constructor (initial: map<string, seq<Rec>>, initialUsers: seq<Rec>)
      requires LegacyTables <= initial.Keys
      ensures Valid() && db == initial && users == initialUsers
    {
      db := initial;
      users := initialUsers;
    }

    /** login: the first user with the username, provided the password is the username. */
    function Login(username: string, password: string): (r: Option<Rec>)
      reads this
      ensures r.Some? <==> password == username && exists i :: 0 <= i < |users| && Get(users[i], "username") == Str(username)
      ensures r.Some? ==> r.value in users && Get(r.value, "username") == Str(username)
    {
      var user := FindUser(users, Str(username));
      if user.Some? && password == username then user else None
    }

    /** register: refuse a taken username, otherwise append the new user. */
    method Register(data: Rec, freshId: string) returns (r: Result<string>)
      modifies this
      ensures db == old(db)
      ensures FindUser(old(users), Get(data, "username")).Some? ==> r == Err("Username sudah digunakan") && users == old(users)
      ensures FindUser(old(users), Get(data, "username")).None? ==>
        r == Ok("Registrasi berhasil") && users == old(users) + [NewUser(data, freshId)]
    {
      if FindUser(users, Get(data, "username")).Some? {
        return Err("Username sudah digunakan");
      }
      users := users + [NewUser(data, freshId)];
      return Ok("Registrasi berhasil");
    }

    /** add: append the data with a fresh id and return it. On a table the database lacks,
        such as "users", `db[type]` is undefined and the push throws a TypeError. */
    method Add(table: string, data: Rec, freshId: string) returns (r: Result<Rec>)
      requires Valid()
      modifies this
      ensures Valid() && users == old(users)
      ensures table !in old(db) ==> r == Err(PushOnUndefined) && db == old(db)
      ensures table in old(db) ==>
        r == Ok(NewRecord(data, freshId)) && db == old(db)[table := old(db[table]) + [r.value]]
    {
      if table !in db {
        return Err(PushOnUndefined);
      }
      var newItem := NewRecord(data, freshId);
      db := db[table := db[table] + [newItem]];
      return Ok(newItem);
    }

    /** delete: keep the records without the id. On a table the database lacks the filter
        throws a TypeError and nothing is saved. */
    method Delete(table: string, id: string) returns (r: Result<()>)
      requires Valid()
      modifies this
      ensures Valid() && users == old(users)
      ensures table !in old(db) ==> r == Err(FilterOnUndefined) && db == old(db)
      ensures table in old(db) ==> r == Ok(()) && db == old(db)[table := WithoutId(old(db[table]), id)]
    {
      if table !in db {
        return Err(FilterOnUndefined);
      }
      db := db[table := WithoutId(db[table], id)];
      return Ok(());
    }

    /** updateUser: merge the data into the first user with the id. */
    method UpdateUser(id: string, data: Rec)
      modifies this
      ensures db == old(db)
      ensures
        var i := IdIndex(old(users), Str(id));
        users == if i == -1 then old(users) else old(users)[i := Spread(old(users)[i], data)]
    {
      var idx := IdIndex(users, Str(id));
      if idx != -1 {
        users := users[idx := Spread(users[idx], data)];
      }
    }

    method DeleteUser(id: string)
      modifies this
      ensures db == old(db)
      ensures users == WithoutId(old(users), id)
    {
      users := WithoutId(users, id);
    }

    method CreateBooking(bookingData: Rec, freshId: string) returns (booking: Rec)
      requires Valid()
      modifies this
      ensures Valid() && users == old(users)
      ensures booking == NewRecord(PendingRequest(bookingData), freshId)
      ensures db == old(db)["bookings" := old(db["bookings"]) + [booking]]
    {
      var r := Add("bookings", PendingRequest(bookingData), freshId);
      booking := r.value;
    }

    /** updateBookingStatus: set the status of the first booking with the id. */
    method UpdateBookingStatus(id: string, status: BookingStatus)
      requires Valid()
      modifies this
      ensures Valid() && users == old(users)
      ensures
        var i := IdIndex(old(db["bookings"]), Str(id));
        db == if i == -1 then old(db)
              else old(db)["bookings" := old(db["bookings"])[i := old(db["bookings"])[i]["status" := Str(BookingStatusText(status))]]]
    {
      var bookings := db["bookings"];
      var i := IdIndex(bookings, Str(id));
      if i != -1 {
        db := db["bookings" := bookings[i := bookings[i]["status" := Str(BookingStatusText(status))]]];
      }
    }

    method CreateItemBorrowing(data: Rec, freshId: string) returns (borrowing: Rec)
      requires Valid()
      modifies this
      ensures Valid() && users == old(users)
      ensures borrowing == NewRecord(PendingRequest(data), freshId)
      ensures db == old(db)["itemBorrowings" := old(db["itemBorrowings"]) + [borrowing]]
    {
      var r := Add("itemBorrowings", PendingRequest(data), freshId);
      borrowing := r.value;
    }

    /** updateItemBorrowingStatus: set the borrowing's status, then the lending fields of
        its item when the item exists. */
    method UpdateItemBorrowingStatus(id: string, status: BorrowStatus)
      requires Valid()
      modifies this
      ensures Valid() && users == old(users)
      ensures db == AfterBorrowStatus(old(db), old(users), id, status)
    {
      var borrows := db["itemBorrowings"];
      var i := IdIndex(borrows, Str(id));
      if i != -1 {
        var borrowing := borrows[i]["status" := Str(BorrowStatusText(status))];
        db := db["itemBorrowings" := borrows[i := borrowing]];
        var items := db["items"];
        var k := IdIndex(items, Get(borrowing, "itemId"));
        if k != -1 {
          var item := items[k];
          if status == BorrowApproved {
            item := item["status_pinjam" := Str("Dipinjam")]["user_peminjam" := BorrowerName(users, Get(borrowing, "userId"))];
          } else if status == Returned || status == BorrowRejected {
            item := item["status_pinjam" := Str("Tersedia")]["user_peminjam" := Undefined];
          }
          assert item == LendState(items[k], status, users, Get(borrowing, "userId"));
          db := db["items" := items[k := item]];
        }
      }
    }
  }
}
