/**
 The order repository over the process-wide store handle, and the store
 effects of the HTTP handlers that change it. The store is the live
 contents of the ordered key-value store; every scan iterates over the keys
 present when it starts, in ascending order, and deletes made during a scan
 apply to the live contents.
 */
module Repository {
  import opened Keys
  import opened Orders
  import opened Queries
  import opened Calendar

  /** The outcome of parsing a request body into an order. */
  datatype Body = Malformed | Parsed(order: CoffeeOrder)

  /** What a store-changing handler answers: the 400 error, or the list of
      orders it sends back. */
  datatype Response = BadRequest(err: string) | Listing(data: seq<CoffeeOrder>)

  const MalformedJson: string := "Malformed JSON"

  class Store {
    /** The live contents: each key and the order its value decodes to. */
    var db: Contents

    constructor (contents: Contents)
      ensures db == contents
    {
      db := contents;
    }

    /** readAll: every record's order, in ascending key order. */
    method ReadAll() returns (orders: seq<CoffeeOrder>)
      ensures orders == AllOrders(db)
    {
      var keys := SortedKeys(db.Keys);
      orders := [];
      var i := 0;
      while i < |keys|
        invariant 0 <= i <= |keys|
        invariant orders == Scan(db, keys[..i])
      {
        assert keys[..i + 1][..i] == keys[..i];
        if IsRecordKey(keys[i]) {
          orders := orders + [db[keys[i]]];
        }
        i := i + 1;
      }
      assert keys[..i] == keys;
    }

    /** readByEmail: the records whose order carries exactly `email`. */
    method ReadByEmail(email: string) returns (orders: seq<CoffeeOrder>)
      ensures orders == WithEmail(AllOrders(db), email)
    {
      var keys := SortedKeys(db.Keys);
      orders := [];
      var i := 0;
      while i < |keys|
        invariant 0 <= i <= |keys|
        invariant orders == WithEmail(Scan(db, keys[..i]), email)
      {
        assert keys[..i + 1][..i] == keys[..i];
        WithEmailScanStep(db, keys[..i + 1], email);
        if IsRecordKey(keys[i]) {
          var co := db[keys[i]];
          if co.emailAddress == email {
            orders := orders + [co];
          }
        }
        i := i + 1;
      }
      assert keys[..i] == keys;
    }

    /** newestKey: the last record key of `email` met in ascending order, or
        "" when there is none. */
    method NewestKey(email: string) returns (newest: string)
      ensures newest == Newest(db, email)
    {
      var keys := SortedKeys(db.Keys);
      newest := "";
      var i := 0;
      while i < |keys|
        invariant 0 <= i <= |keys|
        invariant newest == LastOr(MatchKeysIn(db, keys[..i], email))
      {
        assert keys[..i + 1][..i] == keys[..i];
        var key := keys[i];
        if IsRecordKey(key) {
          var co := db[key];
          if co.emailAddress == email {
            newest := key;  // last one wins
          }
        }
        i := i + 1;
      }
      assert keys[..i] == keys;
    }

    /** The prefix-bounded delete loop of deleteAll and of the monthly
        sweep. */
    method DeleteRecords()
      modifies this
      ensures db == WithoutRecords(old(db))
    {
      var keys := SortedKeys(db.Keys);
      var i := 0;
      while i < |keys|
        invariant 0 <= i <= |keys|
        invariant forall k :: k in db <==> k in old(db) && !(IsRecordKey(k) && k in keys[..i])
        invariant forall k :: k in db ==> db[k] == old(db)[k]
      {
        assert forall k :: k in keys[..i + 1] <==> k in keys[..i] || k == keys[i];
        if IsRecordKey(keys[i]) {
          db := db - {keys[i]};
        }
        i := i + 1;
      }
      assert keys[..i] == keys;
    }

    /** DELETE /coffeeorders: removes every order and answers an empty list. */
    method DeleteAll() returns (data: seq<string>)
      modifies this
      ensures db == WithoutRecords(old(db))
      ensures data == []
    {
      DeleteRecords();
      data := [];
    }

    /** One check of the monthly sweep at the given local day of month and
        hour: inside the trigger window it runs the bulk delete. */
    method SweepCheck(day: int, hour: int) returns (swept: bool)
      modifies this
      ensures swept <==> IsSweepTime(day, hour)
      ensures db == if swept then WithoutRecords(old(db)) else old(db)
    {
      swept := day == 1 && hour == 0;
      if swept {
        DeleteRecords();
      }
    }

    /** POST /coffeeorders: a malformed body is refused before the store is
        touched; otherwise the order is stored under the fresh ID `id`,
        replacing any ID the client sent, and the new listing is returned. */
    method CreateOrder(body: Body, id: ObjectId) returns (resp: Response)
      modifies this
      ensures body.Malformed? ==> resp == BadRequest(MalformedJson) && db == old(db)
      ensures body.Parsed? ==>
                db == AfterInsert(old(db), id, body.order) && resp == Listing(AllOrders(db))
    {
      if body.Malformed? {
        return BadRequest(MalformedJson);
      }
      var co := body.order.(id := id);
      var key := OrderKey(co.id);
      db := db[key := co];
      var orders := ReadAll();
      resp := Listing(orders);
    }

    /** DELETE /coffeeorders/:email: removes the newest order of `email`, if
        any, and returns the new listing. */
    method DeleteNewest(email: string) returns (orders: seq<CoffeeOrder>)
      modifies this
      ensures db == AfterDeleteNewest(old(db), email)
      ensures orders == AllOrders(db)
    {
      var key := NewestKey(email);
      if key != "" {
        db := db - {key};
      }
      orders := ReadAll();
    }

    /** PUT /coffeeorders/:email: the body is parsed before anything is
        deleted; then the newest order of `email` is removed and the parsed
        order is stored under the fresh ID `id`. */
    method ReplaceNewest(email: string, body: Body, id: ObjectId) returns (resp: Response)
      modifies this
      ensures body.Malformed? ==> resp == BadRequest(MalformedJson) && db == old(db)
      ensures body.Parsed? ==>
                db == AfterInsert(AfterDeleteNewest(old(db), email), id, body.order) &&
                resp == Listing(AllOrders(db))
    {
      if body.Malformed? {
        return BadRequest(MalformedJson);
      }
      var key := NewestKey(email);
      if key != "" {
        db := db - {key};
      }
      var co := body.order.(id := id);
      var newKey := OrderKey(co.id);
      db := db[newKey := co];
      var orders := ReadAll();
      resp := Listing(orders);
    }
  }
}
