/**
  The two tables the bot keeps (`users`, keyed by the number `user_id`, and
  `contacts`, keyed by the string `key`) and the read/write functions of
  main.py over them. A table is modelled by what the service promises about
  it: a map from key text to the last item put under that key.
 */
module Store {
  import opened Wrappers
  import opened Schema
  import opened DynamoCodec
  import opened CompositeKey
  import opened Entities
  import Decimal

  /** The text a key attribute holds: the digits of an `N`, the string of an `S`. */
  function KeyText(a: AttrValue): string {
    match a
    case N(n) => n
    case S(s) => s
    case _ => ""
  }

  /** A table: its key attribute name, that attribute's tag, and the stored items by key text. */
  datatype Table = Table(keyName: string, keyTag: Tag, items: map<string, Item>)

  /** The key an item is filed under, if it carries the table's key attribute with a non-empty value. */
  function ItemKey(t: Table, item: Item): Option<string> {
    if t.keyName in item && TagOf(item[t.keyName]) == t.keyTag && KeyText(item[t.keyName]) != ""
    then Some(KeyText(item[t.keyName]))
    else None
  }

  /** Every stored item is filed under its own key. */
  predicate Consistent(t: Table) {
    forall k | k in t.items :: ItemKey(t, t.items[k]) == Some(k)
  }

  /** Every stored item decodes as an instance of the dataclass `fs`. */
  predicate Decodes(t: Table, fs: seq<Field>) {
    forall k | k in t.items :: DeserializeItem(t.items[k], fs).Ok?
  }

  /** `dynamo_put`: the item replaces whatever was stored under its key. */
  function PutItem(t: Table, item: Item): (r: Result<Table>)
    ensures r.Ok? <==> ItemKey(t, item).Some?
    ensures r.Ok? ==> r.value.keyName == t.keyName && r.value.keyTag == t.keyTag
    ensures r.Ok? ==> r.value.items.Keys == t.items.Keys + {ItemKey(t, item).value}
    ensures r.Ok? && Consistent(t) ==> Consistent(r.value)
  {
    match ItemKey(t, item)
    case None => Err(StorageError("the item has no value for the table's key"))
    case Some(k) => Ok(t.(items := t.items[k := item]))
  }

  /** The key named in a get or delete request agrees with the table's key schema. */
  predicate KeyMatches(t: Table, keyName: string, keyTag: Tag) {
    keyName == t.keyName && keyTag == t.keyTag
  }

  /** The service refuses a get or delete whose key value is empty, as it refuses such a put. */
  predicate ValidRequest(t: Table, keyName: string, keyTag: Tag, keyValue: string) {
    KeyMatches(t, keyName, keyTag) && keyValue != ""
  }

  /** `dynamo_get`: the item stored under `keyValue`, or `None`. */
  function GetItem(t: Table, keyName: string, keyTag: Tag, keyValue: string): (r: Result<Option<Item>>)
    ensures r.Err? <==> !ValidRequest(t, keyName, keyTag, keyValue)
    ensures r.Ok? ==> (r.value.Some? <==> keyValue in t.items)
    ensures r.Ok? && r.value.Some? && Consistent(t) ==> ItemKey(t, r.value.value) == Some(keyValue)
  {
    if !ValidRequest(t, keyName, keyTag, keyValue) then Err(StorageError("the key does not match the table's key schema"))
    else if keyValue in t.items then Ok(Some(t.items[keyValue]))
    else Ok(None)
  }

  /** `dynamo_delete`: removes the item under `keyValue`; deleting a missing key is not an error. */
  function DeleteItem(t: Table, keyName: string, keyTag: Tag, keyValue: string): (r: Result<Table>)
    ensures r.Err? <==> !ValidRequest(t, keyName, keyTag, keyValue)
    ensures r.Ok? ==> r.value.keyName == t.keyName && r.value.keyTag == t.keyTag
    ensures r.Ok? ==> r.value.items.Keys == t.items.Keys - {keyValue}
    ensures r.Ok? ==> forall k | k in r.value.items :: r.value.items[k] == t.items[k]
  {
    if !ValidRequest(t, keyName, keyTag, keyValue) then Err(StorageError("the key does not match the table's key schema"))
    else Ok(t.(items := t.items - {keyValue}))
  }

  /** A get after a put finds the put item under its key and the old contents under every other key. */
  lemma GetAfterPut(t: Table, item: Item, keyValue: string)
    requires PutItem(t, item).Ok?
    ensures GetItem(PutItem(t, item).value, t.keyName, t.keyTag, keyValue) ==
              if Some(keyValue) == ItemKey(t, item) then Ok(Some(item))
              else GetItem(t, t.keyName, t.keyTag, keyValue)
  {
  }

  /** A get after a delete finds nothing under the deleted key and the old contents elsewhere. */
  lemma GetAfterDelete(t: Table, deleted: string, keyValue: string)
    ensures DeleteItem(t, t.keyName, t.keyTag, deleted).Ok? <==> deleted != ""
    ensures deleted != "" ==>
              GetItem(DeleteItem(t, t.keyName, t.keyTag, deleted).value, t.keyName, t.keyTag, keyValue) ==
              (if keyValue == deleted then Ok(None) else GetItem(t, t.keyName, t.keyTag, keyValue))
  {
  }

  /** Deleting a non-empty key that holds nothing leaves the table as it was. */
  lemma DeleteAbsent(t: Table, keyValue: string)
    requires keyValue !in t.items
    ensures DeleteItem(t, t.keyName, t.keyTag, keyValue).Ok? <==> keyValue != ""
    ensures keyValue != "" ==> DeleteItem(t, t.keyName, t.keyTag, keyValue) == Ok(t)
  {
    var r := DeleteItem(t, t.keyName, t.keyTag, keyValue);
    if keyValue != "" {
      assert r.value.items == t.items;
      assert r.value == t;
    }
  }

  /** Putting the same item twice stores what putting it once stores. */
  lemma PutIdempotent(t: Table, item: Item)
    requires PutItem(t, item).Ok?
    ensures PutItem(PutItem(t, item).value, item) == PutItem(t, item)
  {
    var once := PutItem(t, item).value;
    var k := ItemKey(t, item).value;
    assert ItemKey(once, item) == Some(k);
    assert once.items[k := item] == once.items;
    assert once.(items := once.items[k := item]) == once;
  }

  /** The service returns every item of the table exactly once, in some order. */
  predicate IsScanOrder(t: Table, order: seq<string>) {
    && (forall i, j | 0 <= i < j < |order| :: order[i] != order[j])
    && (forall i | 0 <= i < |order| :: order[i] in t.items)
    && (forall k | k in t.items :: k in order)
  }

  /**
    `read_users` / `read_contacts`: decode every scanned item in scan order;
    the first item that does not decode decides the error.
   */
  method ReadAll(t: Table, order: seq<string>, fs: seq<Field>) returns (r: Result<seq<Record>>)
    requires IsScanOrder(t, order)
    ensures r.Ok? <==> forall i | 0 <= i < |order| :: DeserializeItem(t.items[order[i]], fs).Ok?
    ensures r.Ok? ==> |r.value| == |order|
    ensures r.Ok? ==> forall i | 0 <= i < |order| :: DeserializeItem(t.items[order[i]], fs) == Ok(r.value[i])
    ensures r.Err? ==> exists i | 0 <= i < |order| ::
              && DeserializeItem(t.items[order[i]], fs) == Err(r.error)
              && forall j | 0 <= j < i :: DeserializeItem(t.items[order[j]], fs).Ok?
  {
    var records: seq<Record> := [];
    var n := 0;
    while n < |order|
      invariant n <= |order| && |records| == n
      invariant forall i | 0 <= i < n :: DeserializeItem(t.items[order[i]], fs) == Ok(records[i])
    {
      var decoded := DeserializeItem(t.items[order[n]], fs);
      if decoded.Err? {
        return Err(decoded.error);
      }
      records := records + [decoded.value];
      n := n + 1;
    }
    return Ok(records);
  }

  /** The store: the `users` and `contacts` tables. */
  datatype Db = Db(users: Table, contacts: Table)

  const UsersKey: string := "user_id"
  const ContactsKey: string := "key"

  /** The tables as the bot expects them: `users` keyed by `user_id: N`, `contacts` by `key: S`. */
  predicate ValidDb(db: Db) {
    && db.users.keyName == UsersKey && db.users.keyTag == TagN && Consistent(db.users)
    && db.contacts.keyName == ContactsKey && db.contacts.keyTag == TagS && Consistent(db.contacts)
  }

  /** `put_user`: the serialised user goes into `users`; `contacts` is untouched. */
  function PutUser(db: Db, user: Record): (r: Result<Db>)
    requires IsRecordOf(user, UserSchema())
    ensures r.Ok? ==> r.value.contacts == db.contacts
    ensures r.Ok? && ValidDb(db) ==> ValidDb(r.value)
  {
    var users :- PutItem(db.users, SerializeItem(user, UserSchema()));
    Ok(db.(users := users))
  }

  /** The item `get_user` reads, or `None` when there is none (`if not item`). */
  function StoredRecord(found: Option<Item>, fs: seq<Field>): (r: Result<Option<Record>>)
    requires WellFormed(Rec(fs))
    ensures r.Ok? && r.value.Some? ==> IsRecordOf(r.value.value, fs)
    ensures found.None? || found.value == map[] ==> r == Ok(None)
    ensures found.Some? && found.value != map[] ==>
              && (r.Ok? <==> DeserializeItem(found.value, fs).Ok?)
              && (r.Ok? ==> r.value == Some(DeserializeItem(found.value, fs).value))
  {
    DeserializeItemTyped(if found.Some? then found.value else map[], fs);
    if found.None? || found.value == map[] then Ok(None)
    else
      var record :- DeserializeItem(found.value, fs);
      Ok(Some(record))
  }

  /** `get_user`: looks the user up under `str(user_id)`. */
  function GetUser(db: Db, userId: int): (r: Result<Option<Record>>)
    ensures r.Ok? && r.value.Some? ==> IsRecordOf(r.value.value, UserSchema())
    ensures ValidDb(db) && Decimal.IntToString(userId) !in db.users.items ==> r == Ok(None)
  {
    SchemasWellFormed();
    var found :- GetItem(db.users, UsersKey, TagN, Decimal.IntToString(userId));
    StoredRecord(found, UserSchema())
  }

  /** `delete_user`. */
  function DeleteUser(db: Db, userId: int): (r: Result<Db>)
    ensures ValidDb(db) ==> r.Ok? && ValidDb(r.value)
    ensures r.Ok? ==> r.value.contacts == db.contacts
  {
    var users :- DeleteItem(db.users, UsersKey, TagN, Decimal.IntToString(userId));
    Ok(db.(users := users))
  }

  /** The item `put_contact` writes: the serialised contact plus `key: {S: dynamo_key(contact.key)}`. */
  function ContactItem(contact: Record): (item: Item)
    requires IsRecordOf(contact, ContactSchema())
    ensures ContactsKey in item && item[ContactsKey] == S(DynamoKey(ContactKey(contact)))
    ensures forall k | k != ContactsKey :: k in item <==> k in SerializeItem(contact, ContactSchema())
  {
    SerializeItem(contact, ContactSchema())[ContactsKey := S(DynamoKey(ContactKey(contact)))]
  }

  /** `put_contact`: `users` is untouched. */
  function PutContact(db: Db, contact: Record): (r: Result<Db>)
    requires IsRecordOf(contact, ContactSchema())
    ensures r.Ok? ==> r.value.users == db.users
    ensures r.Ok? && ValidDb(db) ==> ValidDb(r.value)
  {
    var contacts :- PutItem(db.contacts, ContactItem(contact));
    Ok(db.(contacts := contacts))
  }

  /** `get_contact`: looks the contact up under `dynamo_key(key)`; an empty key is refused. */
  function GetContact(db: Db, key: seq<KeyPart>): (r: Result<Option<Record>>)
    ensures r.Ok? && r.value.Some? ==> IsRecordOf(r.value.value, ContactSchema())
    ensures DynamoKey(key) == "" ==> r.Err?
    ensures ValidDb(db) && DynamoKey(key) != "" && DynamoKey(key) !in db.contacts.items ==> r == Ok(None)
  {
    SchemasWellFormed();
    var found :- GetItem(db.contacts, ContactsKey, TagS, DynamoKey(key));
    StoredRecord(found, ContactSchema())
  }

  /** `delete_contact`: it fails on a well-formed store exactly when the key renders empty. */
  function DeleteContact(db: Db, key: seq<KeyPart>): (r: Result<Db>)
    ensures ValidDb(db) ==> (r.Ok? <==> DynamoKey(key) != "")
    ensures ValidDb(db) && r.Ok? ==> ValidDb(r.value)
    ensures r.Ok? ==> r.value.users == db.users
  {
    var contacts :- DeleteItem(db.contacts, ContactsKey, TagS, DynamoKey(key));
    Ok(db.(contacts := contacts))
  }

  /** A serialised user is filed under `str(user_id)`, and cannot be stored without a `user_id`. */
  lemma UserItemKey(db: Db, user: Record)
    requires ValidDb(db) && IsRecordOf(user, UserSchema())
    ensures ItemKey(db.users, SerializeItem(user, UserSchema())) ==
              if UserId(user).Some? then Some(Decimal.IntToString(UserId(user).value)) else None
  {
    var fs := UserSchema();
    SchemasWellFormed();
    UserIdField(user);
    if user["user_id"].Some? {
      SerializedEntry(user, fs, |fs|, 0);
    }
  }

  /** `put_user` succeeds exactly when the user has a `user_id`. */
  lemma PutUserSucceeds(db: Db, user: Record)
    requires ValidDb(db) && IsRecordOf(user, UserSchema())
    ensures PutUser(db, user).Ok? <==> UserId(user).Some?
  {
    UserItemKey(db, user);
  }

  /** After `put_user`, `get_user` of the same id returns the same user. */
  lemma PutUserThenGet(db: Db, user: Record, userId: int)
    requires ValidDb(db) && IsRecordOf(user, UserSchema())
    requires UserId(user) == Some(userId)
    ensures PutUser(db, user).Ok?
    ensures GetUser(PutUser(db, user).value, userId) == Ok(Some(user))
  {
    UserItemKey(db, user);
    SchemasWellFormed();
    RoundTrip(user, UserSchema());
    var item := SerializeItem(user, UserSchema());
    GetAfterPut(db.users, item, Decimal.IntToString(userId));
  }

  /** `put_user` leaves every other user as it was. */
  lemma PutUserThenGetOther(db: Db, user: Record, userId: int, other: int)
    requires ValidDb(db) && IsRecordOf(user, UserSchema())
    requires UserId(user) == Some(userId) && other != userId
    ensures PutUser(db, user).Ok?
    ensures GetUser(PutUser(db, user).value, other) == GetUser(db, other)
  {
    UserItemKey(db, user);
    var item := SerializeItem(user, UserSchema());
    if Decimal.IntToString(other) == Decimal.IntToString(userId) {
      Decimal.IntToStringInjective(other, userId);
    }
    GetAfterPut(db.users, item, Decimal.IntToString(other));
  }

  /** After `delete_user`, `get_user` of that id finds nothing; other users stay. */
  lemma DeleteUserThenGet(db: Db, userId: int, other: int)
    requires ValidDb(db)
    ensures DeleteUser(db, userId).Ok?
    ensures GetUser(DeleteUser(db, userId).value, userId) == Ok(None)
    ensures other != userId ==> GetUser(DeleteUser(db, userId).value, other) == GetUser(db, other)
  {
    GetAfterDelete(db.users, Decimal.IntToString(userId), Decimal.IntToString(other));
    if Decimal.IntToString(other) == Decimal.IntToString(userId) {
      Decimal.IntToStringInjective(other, userId);
    }
  }

  /** Writing users through `put_user` keeps every stored user readable by `read_users`. */
  lemma PutUserKeepsDecodable(db: Db, user: Record)
    requires IsRecordOf(user, UserSchema()) && Decodes(db.users, UserSchema())
    requires PutUser(db, user).Ok?
    ensures Decodes(PutUser(db, user).value.users, UserSchema())
  {
    SchemasWellFormed();
    RoundTrip(user, UserSchema());
  }

  /** Deleting keeps every remaining item readable. */
  lemma DeleteKeepsDecodable(t: Table, keyName: string, keyTag: Tag, keyValue: string, fs: seq<Field>)
    requires Decodes(t, fs) && DeleteItem(t, keyName, keyTag, keyValue).Ok?
    ensures Decodes(DeleteItem(t, keyName, keyTag, keyValue).value, fs)
  {
  }

  /** The stored contact decodes as the contact: the extra `key` attribute is not a field. */
  lemma ContactItemDecodes(contact: Record)
    requires IsRecordOf(contact, ContactSchema())
    ensures DeserializeItem(ContactItem(contact), ContactSchema()) == Ok(contact)
  {
    var fs := ContactSchema();
    SchemasWellFormed();
    var item := SerializeItem(contact, fs);
    var extra := map[ContactsKey := S(DynamoKey(ContactKey(contact)))];
    assert ContactItem(contact) == item + extra;
    DeserializeIgnoresUndeclared(item, extra, fs, |fs|);
    RoundTrip(contact, fs);
  }

  /** A contact item is filed under `dynamo_key(contact.key)`, never empty, so `put_contact` always succeeds. */
  lemma ContactItemKey(db: Db, contact: Record)
    requires ValidDb(db) && IsRecordOf(contact, ContactSchema())
    ensures ItemKey(db.contacts, ContactItem(contact)) == Some(DynamoKey(ContactKey(contact)))
    ensures PutContact(db, contact).Ok?
  {
    NumericKeyNonEmpty(ContactKey(contact));
  }

  /** After `put_contact`, `get_contact` of the contact's key returns the same contact. */
  lemma PutContactThenGet(db: Db, contact: Record)
    requires ValidDb(db) && IsRecordOf(contact, ContactSchema())
    ensures PutContact(db, contact).Ok?
    ensures GetContact(PutContact(db, contact).value, ContactKey(contact)) == Ok(Some(contact))
  {
    ContactItemKey(db, contact);
    ContactItemDecodes(contact);
    GetAfterPut(db.contacts, ContactItem(contact), DynamoKey(ContactKey(contact)));
  }

  /**
    `put_contact` leaves every contact under another key as it was: a later
    contact for the same week and pair replaces the earlier one, and only it.
   */
  lemma PutContactThenGetOther(db: Db, contact: Record, key: seq<KeyPart>)
    requires ValidDb(db) && IsRecordOf(contact, ContactSchema())
    requires forall i | 0 <= i < |key| :: IsNumericPart(key[i])
    requires key != ContactKey(contact)
    ensures PutContact(db, contact).Ok?
    ensures GetContact(PutContact(db, contact).value, key) == GetContact(db, key)
  {
    ContactItemKey(db, contact);
    if DynamoKey(key) == DynamoKey(ContactKey(contact)) {
      DynamoKeyInjective(key, ContactKey(contact));
    }
    GetAfterPut(db.contacts, ContactItem(contact), DynamoKey(key));
  }

  /** After `delete_contact`, `get_contact` of that key finds nothing; other contacts stay. */
  lemma DeleteContactThenGet(db: Db, key: seq<KeyPart>, other: seq<KeyPart>)
    requires ValidDb(db)
    requires forall i | 0 <= i < |key| :: IsNumericPart(key[i])
    requires forall i | 0 <= i < |other| :: IsNumericPart(other[i])
    ensures DeleteContact(db, key).Ok? <==> |key| > 0
    ensures |key| > 0 ==> GetContact(DeleteContact(db, key).value, key) == Ok(None)
    ensures |key| > 0 && other != key ==> GetContact(DeleteContact(db, key).value, other) == GetContact(db, other)
  {
    EmptyContactKey(db);
    if |key| > 0 {
      NumericKeyNonEmpty(key);
    }
    GetAfterDelete(db.contacts, DynamoKey(key), DynamoKey(other));
    if DynamoKey(other) == DynamoKey(key) {
      DynamoKeyInjective(other, key);
    }
  }

  /**
    The empty key tuple renders to the empty string, which the service refuses:
    `get_contact(db, ())` and `delete_contact(db, ())` raise.
   */
  lemma EmptyContactKey(db: Db)
    ensures DynamoKey([]) == ""
    ensures GetContact(db, []).Err?
    ensures DeleteContact(db, []).Err?
  {
  }

  /** Writing contacts through `put_contact` keeps every stored contact readable by `read_contacts`. */
  lemma PutContactKeepsDecodable(db: Db, contact: Record)
    requires IsRecordOf(contact, ContactSchema()) && Decodes(db.contacts, ContactSchema())
    requires PutContact(db, contact).Ok?
    ensures Decodes(PutContact(db, contact).value.contacts, ContactSchema())
  {
    ContactItemDecodes(contact);
  }
}
