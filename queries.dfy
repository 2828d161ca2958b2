/**
 What the repository's scans of the store compute, stated as functions of
 the store's contents: the orders listed, the orders of one email address,
 the newest key of an email address, and the contents after each of the
 store-changing handlers. A scan visits keys in ascending order; the
 functions that follow a scan loop are defined on a prefix of that order,
 one key at a time from the end, as the loops extend their results. Their
 properties are stated and proved as lemmas.
 */
module Queries {
  import opened Keys
  import opened Orders

  /** The store's contents: each key and the order its value decodes to. */
  type Contents = map<string, CoffeeOrder>

  /** The keys of order records, as a set. */
  function RecordKeySet(db: Contents): set<string>
  {
    set k | k in db && IsRecordKey(k)
  }

  /** A record key of the store whose order carries this email address. */
  predicate IsMatch(db: Contents, k: string, email: string)
  {
    k in db && IsRecordKey(k) && db[k].emailAddress == email
  }

  /** Every key of `ks` is present in the store. */
  predicate InStore(db: Contents, ks: seq<string>)
  {
    forall j :: 0 <= j < |ks| ==> ks[j] in db
  }

  /** The record keys of `ks`, in the order of `ks`. */
  function RecordKeysIn(ks: seq<string>): seq<string>
  {
    if ks == [] then []
    else
      var init, last := ks[..|ks| - 1], ks[|ks| - 1];
      RecordKeysIn(init) + (if IsRecordKey(last) then [last] else [])
  }

  /** The keys of `ks` that are records of `email`, in the order of `ks`. */
  function MatchKeysIn(db: Contents, ks: seq<string>, email: string): seq<string>
  {
    if ks == [] then []
    else
      var init, last := ks[..|ks| - 1], ks[|ks| - 1];
      MatchKeysIn(db, init, email) + (if IsMatch(db, last, email) then [last] else [])
  }

  /** What the loop of readAll has appended after visiting the keys `ks`:
      the decoded value of each record key among them. */
  function Scan(db: Contents, ks: seq<string>): seq<CoffeeOrder>
    requires InStore(db, ks)
  {
    if ks == [] then []
    else
      var init, last := ks[..|ks| - 1], ks[|ks| - 1];
      Scan(db, init) + (if IsRecordKey(last) then [db[last]] else [])
  }

  /** The orders of `orders` whose email address is exactly `email`, in
      order. */
  function WithEmail(orders: seq<CoffeeOrder>, email: string): seq<CoffeeOrder>
  {
    if orders == [] then []
    else
      var init, last := orders[..|orders| - 1], orders[|orders| - 1];
      WithEmail(init, email) + (if last.emailAddress == email then [last] else [])
  }

  /** The store's record keys in iteration order. */
  function RecordKeys(db: Contents): seq<string>
  {
    RecordKeysIn(SortedKeys(db.Keys))
  }

  /** The result of readAll. */
  function AllOrders(db: Contents): seq<CoffeeOrder>
  {
    Scan(db, SortedKeys(db.Keys))
  }

  /** The last element of `s`, or the empty string (Go's zero value) when
      there is none. */
  function LastOr(s: seq<string>): string
  {
    if s == [] then "" else s[|s| - 1]
  }

  function Last(s: seq<CoffeeOrder>): CoffeeOrder
    requires s != []
  {
    s[|s| - 1]
  }

  /** The result of newestKey. */
  function Newest(db: Contents, email: string): string
  {
    LastOr(MatchKeysIn(db, SortedKeys(db.Keys), email))
  }

  /** The contents after the prefix-bounded bulk delete. */
  function WithoutRecords(db: Contents): Contents
  {
    map k | k in db && !IsRecordKey(k) :: db[k]
  }

  /** The contents after createOrder's Put of `order` under the fresh ID
      `id`, which replaces whatever ID the client sent. */
  function AfterInsert(db: Contents, id: ObjectId, order: CoffeeOrder): Contents
  {
    db[OrderKey(id) := order.(id := id)]
  }

  /** The contents after deleteNewest. */
  function AfterDeleteNewest(db: Contents, email: string): Contents
  {
    var key := Newest(db, email);
    if key != "" then db - {key} else db
  }

  // ----- Filters of an ascending key sequence -----

  /** Every key of `s` sorts before `x`. */
  predicate AllBelow(s: seq<string>, x: string)
  {
    forall k :: k in s ==> Below(k, x)
  }

  lemma AscendingInit(ks: seq<string>)
    requires |ks| > 0 && StrictlyAscending(ks)
    ensures StrictlyAscending(ks[..|ks| - 1])
    ensures AllBelow(ks[..|ks| - 1], ks[|ks| - 1])
  {
    var init := ks[..|ks| - 1];
    forall k | k in init
      ensures Below(k, ks[|ks| - 1])
    {
      var i :| 0 <= i < |init| && init[i] == k;
    }
  }

  lemma AscendingSnoc(r: seq<string>, x: string)
    requires StrictlyAscending(r)
    requires AllBelow(r, x)
    ensures StrictlyAscending(r + [x])
  {
    forall i, j | 0 <= i < j < |r| + 1
      ensures Below((r + [x])[i], (r + [x])[j])
    {
      if j == |r| { assert r[i] in r; }
    }
  }

  /** Filtering keeps exactly the prefixed keys and keeps them ascending. */
  lemma {:induction false} RecordKeysInSpec(ks: seq<string>)
    ensures forall k :: k in RecordKeysIn(ks) <==> k in ks && IsRecordKey(k)
    ensures StrictlyAscending(ks) ==> StrictlyAscending(RecordKeysIn(ks))
  {
    if ks != [] {
      var init, last := ks[..|ks| - 1], ks[|ks| - 1];
      RecordKeysInSpec(init);
      assert ks == init + [last];
      if StrictlyAscending(ks) {
        AscendingInit(ks);
        if IsRecordKey(last) { AscendingSnoc(RecordKeysIn(init), last); }
      }
    }
  }

  /** The email filter keeps exactly the email's records, ascending. */
  lemma {:induction false} MatchKeysInSpec(db: Contents, ks: seq<string>, email: string)
    ensures forall k :: k in MatchKeysIn(db, ks, email) <==> k in ks && IsMatch(db, k, email)
    ensures StrictlyAscending(ks) ==> StrictlyAscending(MatchKeysIn(db, ks, email))
  {
    if ks != [] {
      var init, last := ks[..|ks| - 1], ks[|ks| - 1];
      MatchKeysInSpec(db, init, email);
      assert ks == init + [last];
      if StrictlyAscending(ks) {
        AscendingInit(ks);
        if IsMatch(db, last, email) { AscendingSnoc(MatchKeysIn(db, init, email), last); }
      }
    }
  }

  /** The orders a scan appends are the values of the record keys it meets,
      in the same order. */
  lemma {:induction false} ScanSpec(db: Contents, ks: seq<string>)
    requires InStore(db, ks)
    ensures InStore(db, RecordKeysIn(ks))
    ensures |Scan(db, ks)| == |RecordKeysIn(ks)|
    ensures forall i :: 0 <= i < |Scan(db, ks)| ==> Scan(db, ks)[i] == db[RecordKeysIn(ks)[i]]
  {
    if ks != [] {
      ScanSpec(db, ks[..|ks| - 1]);
    }
  }

  /** The email filter keeps exactly the orders carrying that address, with
      no normalisation of it. */
  lemma {:induction false} WithEmailSpec(orders: seq<CoffeeOrder>, email: string)
    ensures forall o :: o in WithEmail(orders, email) <==> o in orders && o.emailAddress == email
    ensures |WithEmail(orders, email)| <= |orders|
  {
    if orders != [] {
      var init, last := orders[..|orders| - 1], orders[|orders| - 1];
      WithEmailSpec(init, email);
      assert orders == init + [last];
    }
  }

  // ----- readAll -----

  /** The record keys in iteration order: exactly the prefixed keys, each
      once, ascending. */
  lemma RecordKeysSpec(db: Contents)
    ensures StrictlyAscending(RecordKeys(db))
    ensures forall k :: k in RecordKeys(db) <==> k in db && IsRecordKey(k)
    ensures |RecordKeys(db)| == |RecordKeySet(db)|
  {
    var r := RecordKeys(db);
    SortedKeysAscending(db.Keys);
    RecordKeysInSpec(SortedKeys(db.Keys));
    AscendingCardinality(r);
    assert (set k | k in r) == RecordKeySet(db);
  }

  /** readAll lists one order per record key, in ascending key order; keys
      without the prefix contribute nothing. */
  lemma AllOrdersSpec(db: Contents)
    ensures InStore(db, RecordKeys(db))
    ensures |AllOrders(db)| == |RecordKeys(db)| == |RecordKeySet(db)|
    ensures forall i :: 0 <= i < |AllOrders(db)| ==> AllOrders(db)[i] == db[RecordKeys(db)[i]]
  {
    RecordKeysSpec(db);
    ScanSpec(db, SortedKeys(db.Keys));
  }

  /** The order stored under record key `k` is listed by readAll. */
  lemma ListedAt(db: Contents, k: string)
    requires k in db && IsRecordKey(k)
    ensures db[k] in AllOrders(db)
  {
    RecordKeysSpec(db);
    AllOrdersSpec(db);
    var keys := RecordKeys(db);
    var i :| 0 <= i < |keys| && keys[i] == k;
    assert AllOrders(db)[i] == db[k];
  }

  // ----- readByEmail and newestKey -----

  /** The orders of `email` met while visiting `ks` are the values of the
      email's record keys among `ks`, in the same order. */
  lemma {:induction false} WithEmailScan(db: Contents, ks: seq<string>, email: string)
    requires InStore(db, ks)
    ensures InStore(db, MatchKeysIn(db, ks, email))
    ensures |WithEmail(Scan(db, ks), email)| == |MatchKeysIn(db, ks, email)|
    ensures forall i :: 0 <= i < |MatchKeysIn(db, ks, email)| ==>
              WithEmail(Scan(db, ks), email)[i] == db[MatchKeysIn(db, ks, email)[i]]
  {
    if ks != [] {
      var init, last := ks[..|ks| - 1], ks[|ks| - 1];
      WithEmailScan(db, init, email);
      var s0 := Scan(db, init);
      if IsRecordKey(last) {
        assert (s0 + [db[last]])[..|s0|] == s0;
      } else {
        assert Scan(db, ks) == s0;
      }
    }
  }

  /** One step of readByEmail's loop: visiting one more key appends its
      order exactly when it is a record of the email. */
  lemma WithEmailScanStep(db: Contents, ks: seq<string>, email: string)
    requires |ks| > 0 && InStore(db, ks)
    ensures WithEmail(Scan(db, ks), email)
            == WithEmail(Scan(db, ks[..|ks| - 1]), email) +
               (if IsMatch(db, ks[|ks| - 1], email) then [db[ks[|ks| - 1]]] else [])
  {
    var before := Scan(db, ks[..|ks| - 1]);
    var last := ks[|ks| - 1];
    if IsRecordKey(last) {
      assert Scan(db, ks) == before + [db[last]];
      assert (before + [db[last]])[..|before|] == before;
    } else {
      assert Scan(db, ks) == before;
    }
  }

  lemma RecordKeyNotEmpty(k: string)
    requires IsRecordKey(k)
    ensures k != ""
  {
  }

  /** newestKey returns "" exactly when no record carries the email. */
  lemma NewestNone(db: Contents, email: string)
    ensures Newest(db, email) == "" <==> forall k :: !IsMatch(db, k, email)
  {
    var m := MatchKeysIn(db, SortedKeys(db.Keys), email);
    MatchKeysInSpec(db, SortedKeys(db.Keys), email);
    if m != [] {
      assert m[|m| - 1] in m;
      RecordKeyNotEmpty(m[|m| - 1]);
    }
  }

  /** Otherwise "last one wins" picks the greatest key among the email's
      records. */
  lemma NewestGreatest(db: Contents, email: string)
    requires Newest(db, email) != ""
    ensures IsMatch(db, Newest(db, email), email)
    ensures forall k :: IsMatch(db, k, email) && k != Newest(db, email) ==> Below(k, Newest(db, email))
  {
    var m := MatchKeysIn(db, SortedKeys(db.Keys), email);
    SortedKeysAscending(db.Keys);
    MatchKeysInSpec(db, SortedKeys(db.Keys), email);
    var n := m[|m| - 1];
    assert n in m;
    forall k | IsMatch(db, k, email) && k != n
      ensures Below(k, n)
    {
      var i :| 0 <= i < |m| && m[i] == k;
    }
  }

  /** Conversely, a record of the email that is greater than all its other
      records is the newest one. */
  lemma NewestIsGreatestMatch(db: Contents, email: string, k: string)
    requires IsMatch(db, k, email)
    requires forall j :: IsMatch(db, j, email) && j != k ==> Below(j, k)
    ensures Newest(db, email) == k
  {
    NewestNone(db, email);
    NewestGreatest(db, email);
    var n := Newest(db, email);
    if n != k {
      BelowAsymmetric(n, k);
    }
  }

  /** An email has a newest record exactly when readByEmail lists some
      order for it. */
  lemma NewestNoneListed(db: Contents, email: string)
    ensures Newest(db, email) == "" <==> WithEmail(AllOrders(db), email) == []
  {
    var ks := SortedKeys(db.Keys);
    var m := MatchKeysIn(db, ks, email);
    WithEmailScan(db, ks, email);
    if m != [] {
      RecordKeyNotEmpty(m[|m| - 1]) by { MatchKeysInSpec(db, ks, email); assert m[|m| - 1] in m; }
    }
  }

  /** The newest record of an email is the last order readByEmail lists for
      it. */
  lemma NewestIsLastListed(db: Contents, email: string)
    requires Newest(db, email) != ""
    ensures Newest(db, email) in db
    ensures WithEmail(AllOrders(db), email) != []
    ensures Last(WithEmail(AllOrders(db), email)) == db[Newest(db, email)]
  {
    WithEmailScan(db, SortedKeys(db.Keys), email);
  }

  // ----- Store-changing operations -----

  lemma RecordKeySetUpdate(db: Contents, k: string, o: CoffeeOrder)
    requires IsRecordKey(k)
    ensures RecordKeySet(db[k := o]) == RecordKeySet(db) + {k}
  {
  }

  lemma RecordKeySetRemove(db: Contents, k: string)
    ensures RecordKeySet(db - {k}) == RecordKeySet(db) - {k}
  {
  }

  /** The bulk delete removes every record and nothing else, so a listing
      that follows it is empty. */
  lemma DeleteAllEffect(db: Contents)
    ensures RecordKeySet(WithoutRecords(db)) == {}
    ensures AllOrders(WithoutRecords(db)) == []
    ensures forall k :: k in db && !IsRecordKey(k) ==> k in WithoutRecords(db) && WithoutRecords(db)[k] == db[k]
  {
    assert RecordKeySet(WithoutRecords(db)) == {};
    AllOrdersSpec(WithoutRecords(db));
  }

  /** Inserting under a fresh ID adds exactly one record key, leaves every
      other entry alone, and the stored order shows up in readAll, which
      grows by one. */
  lemma InsertEffect(db: Contents, id: ObjectId, order: CoffeeOrder)
    requires OrderKey(id) !in db
    ensures RecordKeySet(AfterInsert(db, id, order)) == RecordKeySet(db) + {OrderKey(id)}
    ensures forall k :: k != OrderKey(id) ==>
              (k in AfterInsert(db, id, order) <==> k in db) &&
              (k in db ==> AfterInsert(db, id, order)[k] == db[k])
    ensures |AllOrders(AfterInsert(db, id, order))| == |AllOrders(db)| + 1
    ensures order.(id := id) in AllOrders(AfterInsert(db, id, order))
  {
    var key := OrderKey(id);
    var after := AfterInsert(db, id, order);
    RecordKeySetUpdate(db, key, order.(id := id));
    assert key !in RecordKeySet(db);
    AllOrdersSpec(db);
    AllOrdersSpec(after);
    ListedAt(after, key);
  }

  /** deleteNewest is a no-op when the email has no record, and otherwise
      removes exactly its greatest record key, so readAll shrinks by one. */
  lemma DeleteNewestEffect(db: Contents, email: string)
    ensures Newest(db, email) == "" ==> AfterDeleteNewest(db, email) == db
    ensures Newest(db, email) != "" ==>
              RecordKeySet(AfterDeleteNewest(db, email)) == RecordKeySet(db) - {Newest(db, email)} &&
              |AllOrders(AfterDeleteNewest(db, email))| == |AllOrders(db)| - 1
  {
    var key := Newest(db, email);
    if key != "" {
      NewestGreatest(db, email);
      assert key in RecordKeySet(db);
      RecordKeySetRemove(db, key);
      AllOrdersSpec(db);
      AllOrdersSpec(db - {key});
    }
  }

  /** replaceNewest keeps the number of listed orders when the email had a
      record and adds one when it had none. */
  lemma ReplaceCount(db: Contents, email: string, id: ObjectId, order: CoffeeOrder)
    requires OrderKey(id) !in db
    ensures |AllOrders(AfterInsert(AfterDeleteNewest(db, email), id, order))|
            == |AllOrders(db)| + (if Newest(db, email) == "" then 1 else 0)
  {
    DeleteNewestEffect(db, email);
    var mid := AfterDeleteNewest(db, email);
    assert OrderKey(id) !in mid;
    InsertEffect(mid, id, order);
  }

  /** After an insert under a fresh key, the records of an email are its
      old records plus the new key when the inserted order carries it. */
  lemma InsertMatches(db: Contents, id: ObjectId, order: CoffeeOrder, email: string)
    requires OrderKey(id) !in db
    ensures forall k :: IsMatch(AfterInsert(db, id, order), k, email) <==>
              IsMatch(db, k, email) || (k == OrderKey(id) && order.emailAddress == email)
  {
  }

  lemma SingleMatchListing(db: Contents, ks: seq<string>, email: string, key: string)
    requires InStore(db, ks)
    requires MatchKeysIn(db, ks, email) == [key]
    ensures key in db
    ensures WithEmail(Scan(db, ks), email) == [db[key]]
  {
    WithEmailScan(db, ks, email);
  }

  /** An order created for an email that had none is then the only order
      readByEmail returns for it. */
  lemma CreateThenListByEmail(db: Contents, id: ObjectId, order: CoffeeOrder)
    requires OrderKey(id) !in db
    requires forall k :: !IsMatch(db, k, order.emailAddress)
    ensures WithEmail(AllOrders(AfterInsert(db, id, order)), order.emailAddress) == [order.(id := id)]
  {
    var after := AfterInsert(db, id, order);
    var ks := SortedKeys(after.Keys);
    InsertMatches(db, id, order, order.emailAddress);
    SortedKeysAscending(after.Keys);
    MatchKeysInSpec(after, ks, order.emailAddress);
    AscendingSingleton(MatchKeysIn(after, ks, order.emailAddress), OrderKey(id));
    SingleMatchListing(after, ks, order.emailAddress, OrderKey(id));
  }

  /** Two orders created in sequence for one email, each with a later
      (greater) ID than every record already stored: deleting the newest
      removes the second and leaves the store as it was after the first,
      whatever older orders the email already had. */
  lemma SecondOrderIsNewest(db: Contents, a: ObjectId, first: CoffeeOrder, b: ObjectId, second: CoffeeOrder)
    requires OrderKey(a) !in db && OrderKey(b) !in db
    requires first.emailAddress == second.emailAddress
    requires forall k :: k in db && IsRecordKey(k) ==> Below(k, OrderKey(a))
    requires BytesBelow(a, b)
    ensures Newest(AfterInsert(AfterInsert(db, a, first), b, second), first.emailAddress) == OrderKey(b)
    ensures AfterDeleteNewest(AfterInsert(AfterInsert(db, a, first), b, second), first.emailAddress)
            == AfterInsert(db, a, first)
  {
    var db1 := AfterInsert(db, a, first);
    var db2 := AfterInsert(db1, b, second);
    OrderKeyOrder(a, b);
    BelowIrreflexive(OrderKey(a));
    InsertMatches(db, a, first, first.emailAddress);
    InsertMatches(db1, b, second, first.emailAddress);
    forall j | IsMatch(db2, j, first.emailAddress) && j != OrderKey(b)
      ensures Below(j, OrderKey(b))
    {
      if j != OrderKey(a) {
        BelowTransitive(j, OrderKey(a), OrderKey(b));
      }
    }
    NewestIsGreatestMatch(db2, first.emailAddress, OrderKey(b));
    assert db2 - {OrderKey(b)} == db1;
  }
}
