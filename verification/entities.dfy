/**
  The dataclasses of main.py that are stored: `Intro`, `User` and `Contact`,
  as field descriptors, and the `Contact.key` property.
 */
module Entities {
  import opened Wrappers
  import opened Schema
  import opened DynamoCodec
  import opened CompositeKey
  import Decimal

  /** `Intro`: every field defaults to `None`. */
  function IntroSchema(): seq<Field> {
    [Field("name", Str), Field("city", Str), Field("links", Str), Field("about", Str)]
  }

  /** `User`. */
  function UserSchema(): seq<Field> {
    [ Field("user_id", Int),
      Field("username", Str),
      Field("state", Str),
      Field("participate_date", Time),
      Field("pause_date", Time),
      Field("pause_period", Str),
      Field("intro", Rec(IntroSchema())),
      Field("partner_user_id", Int) ]
  }

  /** `Contact`; `key` is a property, not a field. */
  function ContactSchema(): seq<Field> {
    [ Field("week_id", Int),
      Field("user_id", Int),
      Field("partner_user_id", Int),
      Field("state", Str),
      Field("feedback", Str) ]
  }

  lemma IntroNames()
    ensures Names(IntroSchema()) == {"name", "city", "links", "about"}
  {
    var fs := IntroSchema();
    assert NamesBelow(fs, 1) == {"name"};
    assert NamesBelow(fs, 2) == {"name", "city"};
    assert NamesBelow(fs, 3) == {"name", "city", "links"};
  }

  lemma UserNames()
    ensures Names(UserSchema()) ==
      {"user_id", "username", "state", "participate_date", "pause_date", "pause_period", "intro", "partner_user_id"}
  {
    var fs := UserSchema();
    assert NamesBelow(fs, 1) == {"user_id"};
    assert NamesBelow(fs, 2) == {"user_id", "username"};
    assert NamesBelow(fs, 3) == {"user_id", "username", "state"};
    assert NamesBelow(fs, 4) == {"user_id", "username", "state", "participate_date"};
    assert NamesBelow(fs, 5) == {"user_id", "username", "state", "participate_date", "pause_date"};
    assert NamesBelow(fs, 6) == {"user_id", "username", "state", "participate_date", "pause_date", "pause_period"};
    assert NamesBelow(fs, 7) ==
      {"user_id", "username", "state", "participate_date", "pause_date", "pause_period", "intro"};
  }

  lemma ContactNames()
    ensures Names(ContactSchema()) == {"week_id", "user_id", "partner_user_id", "state", "feedback"}
  {
    var fs := ContactSchema();
    assert NamesBelow(fs, 1) == {"week_id"};
    assert NamesBelow(fs, 2) == {"week_id", "user_id"};
    assert NamesBelow(fs, 3) == {"week_id", "user_id", "partner_user_id"};
    assert NamesBelow(fs, 4) == {"week_id", "user_id", "partner_user_id", "state"};
  }

  /** The dataclasses declare distinct names; `key` is not a field of `Contact`. */
  lemma SchemasWellFormed()
    ensures WellFormed(Rec(IntroSchema()))
    ensures WellFormed(Rec(UserSchema()))
    ensures WellFormed(Rec(ContactSchema()))
    ensures "key" !in Names(ContactSchema())
  {
    IntroDistinct();
    UserDistinct();
    ContactDistinct();
    ContactNames();
    assert forall i | 0 <= i < |UserSchema()| :: WellFormed(UserSchema()[i].ty) by {
      assert UserSchema()[6].ty == Rec(IntroSchema());
    }
  }

  /* Names of equal length differ in their first letter. */

  lemma IntroDistinct()
    ensures DistinctNames(IntroSchema())
  {
    var fs := IntroSchema();
    assert |fs[0].name| == 4 && |fs[1].name| == 4 && |fs[2].name| == 5 && |fs[3].name| == 5;
    assert fs[0].name[0] == 'n' && fs[1].name[0] == 'c' && fs[2].name[0] == 'l' && fs[3].name[0] == 'a';
  }

  lemma UserDistinct()
    ensures DistinctNames(UserSchema())
  {
    var fs := UserSchema();
    assert |fs[0].name| == 7 && |fs[1].name| == 8 && |fs[2].name| == 5 && |fs[3].name| == 16;
    assert |fs[4].name| == 10 && |fs[5].name| == 12 && |fs[6].name| == 5 && |fs[7].name| == 15;
    assert fs[2].name[0] == 's' && fs[6].name[0] == 'i';
  }

  lemma ContactDistinct()
    ensures DistinctNames(ContactSchema())
  {
    var fs := ContactSchema();
    assert |fs[0].name| == 7 && |fs[1].name| == 7 && |fs[2].name| == 15 && |fs[3].name| == 5 && |fs[4].name| == 8;
    assert fs[0].name[0] == 'w' && fs[1].name[0] == 'u';
  }

  /** The three key fields of a contact hold ints or `None`. */
  lemma ContactKeyFields(c: Record)
    requires IsRecordOf(c, ContactSchema())
    ensures "week_id" in c && (c["week_id"].Some? ==> c["week_id"].value.IntV?)
    ensures "user_id" in c && (c["user_id"].Some? ==> c["user_id"].value.IntV?)
    ensures "partner_user_id" in c && (c["partner_user_id"].Some? ==> c["partner_user_id"].value.IntV?)
  {
    var fs := ContactSchema();
    FieldOf(c, fs, 0);
    FieldOf(c, fs, 1);
    FieldOf(c, fs, 2);
  }

  /** A user's `user_id` holds an int or `None`. */
  lemma UserIdField(user: Record)
    requires IsRecordOf(user, UserSchema())
    ensures "user_id" in user && (user["user_id"].Some? ==> user["user_id"].value.IntV?)
  {
    FieldOf(user, UserSchema(), 0);
  }

  /** `user.user_id`. */
  function UserId(user: Record): Option<int>
    requires IsRecordOf(user, UserSchema())
  {
    UserIdField(user);
    match user["user_id"]
    case None => None
    case Some(v) => Some(v.i)
  }

  /** The key component a field value contributes: an int, or `None`. */
  function KeyPartOf(v: Option<Value>): (p: KeyPart)
    requires v.Some? ==> v.value.IntV?
    ensures IsNumericPart(p)
  {
    match v
    case None => NonePart
    case Some(x) => IntPart(x.i)
  }

  /** `Contact.key`: `(week_id, user_id, partner_user_id)`. */
  function ContactKey(c: Record): (key: seq<KeyPart>)
    requires IsRecordOf(c, ContactSchema())
    ensures |key| == 3 && forall i | 0 <= i < 3 :: IsNumericPart(key[i])
  {
    ContactKeyFields(c);
    [KeyPartOf(c["week_id"]), KeyPartOf(c["user_id"]), KeyPartOf(c["partner_user_id"])]
  }

  /** Two contacts share a store key only if they agree on week and both users. */
  lemma ContactKeyDetermines(c1: Record, c2: Record)
    requires IsRecordOf(c1, ContactSchema()) && IsRecordOf(c2, ContactSchema())
    requires DynamoKey(ContactKey(c1)) == DynamoKey(ContactKey(c2))
    ensures forall k | k in {"week_id", "user_id", "partner_user_id"} :: k in c1 && k in c2 && c1[k] == c2[k]
  {
    ContactKeyFields(c1);
    ContactKeyFields(c2);
    DynamoKeyInjective(ContactKey(c1), ContactKey(c2));
  }

  /** A user with id 123, no username, and an intro holding only the name "Alex". */
  function AlexUser(): Record {
    map[
      "user_id" := Some(IntV(123)),
      "username" := None,
      "state" := None,
      "participate_date" := None,
      "pause_date" := None,
      "pause_period" := None,
      "intro" := Some(RecV(AlexIntro())),
      "partner_user_id" := None
    ]
  }

  function AlexIntro(): Record {
    map["name" := Some(StrV("Alex")), "city" := None, "links" := None, "about" := None]
  }

  lemma AlexUserTyped()
    ensures IsRecordOf(AlexIntro(), IntroSchema())
    ensures IsRecordOf(AlexUser(), UserSchema())
  {
    UserNames();
    IntroNames();
    assert IsRecordOf(AlexIntro(), IntroSchema());
    assert AlexUser()["intro"] == Some(RecV(AlexIntro()));
  }

  lemma AlexIntroItem()
    ensures IsRecordOf(AlexIntro(), IntroSchema())
    ensures SerializeItem(AlexIntro(), IntroSchema()) == map["name" := S("Alex")]
  {
    AlexUserTyped();
    SchemasWellFormed();
    IntroNames();
    var item := SerializeItem(AlexIntro(), IntroSchema());
    assert item.Keys == {"name"};
    SerializedEntry(AlexIntro(), IntroSchema(), 4, 0);
  }

  lemma AlexUserIdEntry()
    ensures AlexUser()["user_id"] == Some(IntV(123))
    ensures SerializeValue(IntV(123), Int) == N("123")
  {
    assert Decimal.NatToString(123) == "123" by {
      assert Decimal.NatToString(12) == "12" by {
        assert Decimal.NatToString(1) == "1";
      }
    }
  }

  /** The item holds exactly `user_id` and `intro`, the user's only present fields. */
  lemma AlexUserKeys()
    ensures IsRecordOf(AlexUser(), UserSchema())
    ensures SerializeItem(AlexUser(), UserSchema()).Keys == {"user_id", "intro"}
  {
    AlexUserTyped();
    var item := SerializeItem(AlexUser(), UserSchema());
    forall k ensures k in item <==> k in {"user_id", "intro"} {
    }
  }

  /** The two present fields are stored as their serialised values. */
  lemma AlexUserEntries()
    ensures IsRecordOf(AlexUser(), UserSchema())
    ensures "user_id" in SerializeItem(AlexUser(), UserSchema())
    ensures "intro" in SerializeItem(AlexUser(), UserSchema())
    ensures SerializeItem(AlexUser(), UserSchema())["user_id"] == N("123")
    ensures SerializeItem(AlexUser(), UserSchema())["intro"] == M(map["name" := S("Alex")])
  {
    AlexUserTyped();
    AlexUserIdEntry();
    AlexIntroItem();
    SchemasWellFormed();
    SerializedEntry(AlexUser(), UserSchema(), 8, 0);
    SerializedEntry(AlexUser(), UserSchema(), 8, 6);
  }

  /** The user above is stored as exactly `{user_id: {N: "123"}, intro: {M: {name: {S: "Alex"}}}}`. */
  lemma AlexUserItem()
    ensures IsRecordOf(AlexUser(), UserSchema())
    ensures SerializeItem(AlexUser(), UserSchema()) == map["user_id" := N("123"), "intro" := M(map["name" := S("Alex")])]
  {
    AlexUserKeys();
    AlexUserEntries();
  }

  /** That item reads back as the same user, with every other field `None`. */
  lemma AlexUserDecodes()
    ensures DeserializeItem(map["user_id" := N("123"), "intro" := M(map["name" := S("Alex")])], UserSchema()) == Ok(AlexUser())
  {
    AlexUserItem();
    SchemasWellFormed();
    RoundTrip(AlexUser(), UserSchema());
  }
}
