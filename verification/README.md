# neludim: the storage and callback-data codecs, in Dafny

This project models the data layer of the neludim random-coffee Telegram bot.

- **DynamoDB item codec** (`main.py`). It turns the bot's dataclasses (`User`, its nested `Intro`, `Contact`) into DynamoDB items and back.
  - Every present field is stored as a one-entry tagged value: `{BOOL: b}`, `{N: "12"}`, `{S: "x"}` or `{M: {...}}`.
  - Fields that are `None` are left out.
- **Composite key** (`dynamo_key`). It joins key parts with `#`. `Contact.key` is `(week_id, user_id, partner_user_id)`.
- **Table operations.** These are `put`, `get`, `delete` and the scan behind `read_users`/`read_contacts`. Each table is a map from key text to item:
  - `users` is keyed by `user_id` under tag `N`;
  - `contacts` is keyed by the synthetic `key` attribute under tag `S`.
- **Profile editing.** `parse_command` strips leading slashes. `handle_edit_states` sets or clears the intro field that the user's state names, then leaves the state.
- **Callback-data codec** (`neludim/bot/data.py`). `serialize_data` writes the class prefix and one `:`-separated token per field. `deserialize_data` splits on `:`, drops the first piece unread, and pairs the remaining pieces with the fields in order.

## How the Python is represented

- **Dataclasses.** A dataclass is a descriptor: its fields in declaration order, each a name with a `FieldType` (`Bool | Int | Str | Time | Rec(fields)`). An instance is a `map<string, Option<Value>>` over exactly the declared names.
- **Errors.** Python exceptions become `Result` errors: `KeyError`, `ValueError`, `TypeError`, `AttributeError`, and `StorageError` for a write the store refuses.
- **`int()` and `str()`.** `Decimal` gives `int(text)` for base 10: surrounding whitespace, an optional sign, and digits with single underscores between them. It also gives `str(n)`.
- **Splitting and joining.** `Delimited` gives `str.split` and `str.join` on one separator character.

### Behaviour of the code worth knowing

- **Missing trailing tokens.** `deserialize_data` passes only the fields that got a token to the constructor (neludim/bot/data.py:72-78). A field without a default that gets no token therefore makes the constructor raise `TypeError`; only fields with a default become `None` (`CallbackData.DeserializeMissingRequired`, `CallbackData.ParticipateMissing`, `CallbackData.ReviewProfileMissing`).
- **Callback-data round trip.** It is not total:
  - `serialize_data` writes an empty token for `None` and for `""` alike, and `deserialize_data` reads an empty token as `None` (neludim/bot/data.py:59-62, 73-74), so an empty str field comes back as `None` (`CallbackData.EmptyStringLost`);
  - `serialize_data` does not escape `:` and `deserialize_data` splits on every `:` (neludim/bot/data.py:62-68), so a `:` inside a str field shifts the later fields (`CallbackData.ColonShiftsFields`).
  
  The round trip is proved under exactly the two conditions that exclude these cases.
- **Composite keys.** `dynamo_key` joins `str()` of each part with `#` and escapes nothing (main.py:319-322), so string parts containing `#` collide (`CompositeKey.DynamoKeyStringCollision`). Keys made of ints are injective.

## Model

| member | source | states |
|---|---|---|
| DynamoCodec.DynamoTypeTags | main.py:249-257 | `dynamo_type` gives BOOL exactly for bool, N exactly for int, M exactly for a dataclass, and S for str and Datetime alone |
| DynamoCodec.SerializeValue | main.py:249-283 | a present value is written under the tag `dynamo_type` gives its annotation: BOOL for bool, N for int, S for str and Datetime, M for a dataclass |
| DynamoCodec.SerializeItem | main.py:299-307 | an attribute appears exactly for the fields that are not `None`; `False`, `0` and `""` are kept |
| DynamoCodec.SerializedEntry | main.py:302-306 | each present field is stored under its own name as its serialised value |
| DynamoCodec.SerializeItemTag | main.py:304-306 | the stored attribute of a present field carries the tag of the field's annotation |
| DynamoCodec.DeserializeValue | main.py:286-292 | an attribute whose tag differs from the field's `dynamo_type` fails with KeyError naming the expected tag |
| DynamoCodec.DeserializeItem | main.py:286-296 | a decoded instance has exactly the declared fields, and every field the item lacks is `None` |
| DynamoCodec.DeserializeFieldsSucceeds | main.py:288-295 | decoding succeeds if and only if every declared attribute present in the item decodes |
| DynamoCodec.DeserializeItemTyped | main.py:286-296 | a successful decode is an instance of the dataclass: each field is `None` or a value of its annotation |
| DynamoCodec.DeserializeIgnoresUndeclared | main.py:288-289 | attributes that are not declared fields do not change the result |
| DynamoCodec.RoundTripValue | main.py:260-283 | decoding a serialised value gives the value back, nested dataclasses included |
| DynamoCodec.RoundTrip | main.py:286-307 | `dynamo_deserialize_item(dynamo_serialize_item(x), type(x)) == x` for every instance, with any mix of `None` fields (CPython's digit limit aside, see Left out) |
| DynamoCodec.SerializeItemInjective | main.py:299-307 | two distinct instances of one dataclass never produce the same item |
| Decimal.IntToString | main.py:276-277 | `str(n)` is a non-empty run of digits with a leading `-` exactly when `n` is negative |
| Decimal.ParseInt | main.py:263-264 | `int(text)` fails only with ValueError carrying the text |
| Decimal.StrippedSpaces | main.py:263-264 | `int()` strips ASCII blanks such as a tab but not the separator `\x1c`, so `int("\x1c5")` raises ValueError |
| Decimal.ParseIntToString | main.py:263-277 | `int(str(n)) == n` for every integer, negatives included (CPython's digit limit aside, see Left out) |
| Decimal.IntToStringInjective | main.py:276-277 | distinct integers have distinct decimal renderings |
| Delimited.Split | neludim/bot/data.py:68 | `text.split(sep)` has one piece more than the text has separators, no piece holds the separator, and joining the pieces gives the text back |
| Delimited.JoinCount | neludim/bot/data.py:64 | `sep.join` of k parts holds at least k-1 separators, and exactly k-1 when no part holds one |
| Delimited.SplitJoin | neludim/bot/data.py:64-68 | splitting a `:`-join of `:`-free parts gives the parts back |
| CompositeKey.DynamoKeySplit | main.py:319-322 | splitting a key on `#` gives back the rendered parts when none of them holds a `#` |
| CompositeKey.DynamoKeyExample | main.py:319-322 | `dynamo_key([5, 10, 20]) == "5#10#20"` |
| CompositeKey.DynamoKeyInjective | main.py:319-322 | on keys of ints (and `None`) equal keys mean equal part sequences, because no rendering is empty or contains `#` |
| CompositeKey.DynamoKeyStringCollision | main.py:319-322 | `dynamo_key(["a#b"]) == dynamo_key(["a", "b"])`: string parts are not escaped |
| CompositeKey.NumericKeyNonEmpty | main.py:319-322 | a non-empty key of ints renders to a non-empty string |
| Entities.SchemasWellFormed | main.py:102-153 | `Intro`, `User` and `Contact` declare distinct field names, and `key` is not a field of `Contact` |
| Entities.ContactKey | main.py:155-161 | `Contact.key` is the triple of `week_id`, `user_id` and `partner_user_id`, each an int or `None` |
| Entities.ContactKeyDetermines | main.py:155-161 | two contacts with the same store key agree on week, user and partner |
| Entities.AlexUserItem | main.py:102-122 | user 123 with only the intro name "Alex" is stored as exactly `{user_id: {N: "123"}, intro: {M: {name: {S: "Alex"}}}}` |
| Entities.AlexUserDecodes | main.py:286-296 | that item reads back as the same user, every other field and intro field `None` |
| Store.PutItem | main.py:208-212 | a put succeeds exactly when the item carries the table's key attribute with a non-empty value of the right tag; it adds or replaces that key only |
| Store.GetItem | main.py:215-224 | a get errs exactly on a key that does not match the table's key schema or has an empty value, and otherwise finds an item exactly when one is stored under the key |
| Store.DeleteItem | main.py:227-235 | a delete errs exactly on a key that does not match the table's key schema or has an empty value; otherwise it removes only the given key and leaves every other item as it was |
| Store.GetAfterPut | main.py:208-224 | after a put, a get finds the new item under its key and the old contents elsewhere |
| Store.GetAfterDelete | main.py:215-235 | a delete succeeds exactly when the key value is non-empty; after it, a get finds nothing under the deleted key and the old contents elsewhere |
| Store.DeleteAbsent | main.py:227-235 | deleting a non-empty key that holds nothing leaves the table unchanged; the empty key is refused |
| Store.PutIdempotent | main.py:208-212 | putting the same item twice leaves what putting it once leaves |
| Store.ReadAll | main.py:337-339 | a scan read decodes every stored item once, in scan order; it fails exactly when some item does not decode, with the first such error |
| Store.StoredRecord | main.py:352-354 | a missing or empty item (`if not item`) is `None`, not an error; a non-empty item gives what `dynamo_deserialize_item` gives, errors included, and a found record is an instance |
| Store.PutUser | main.py:342-344 | `put_user` changes only the `users` table and keeps the store's key invariants |
| Store.PutUserSucceeds | main.py:342-344 | `put_user` succeeds exactly when the user has a `user_id` |
| Store.UserItemKey | main.py:330-351 | a serialised user is filed under `str(user_id)` |
| Store.GetUser | main.py:347-354 | `get_user` of an id with nothing stored returns `None`; a found user is an instance of `User` |
| Store.PutUserThenGet | main.py:342-354 | after `put_user(u)`, `get_user(u.user_id)` returns `u` |
| Store.PutUserThenGetOther | main.py:342-354 | `put_user` leaves every other user as it was |
| Store.DeleteUser | main.py:357-361 | `delete_user` always succeeds on a well-formed store and changes only `users` |
| Store.DeleteUserThenGet | main.py:347-361 | after `delete_user(id)`, `get_user(id)` is `None` and other users are unchanged |
| Store.PutUserKeepsDecodable | main.py:337-344 | writing through `put_user` keeps every stored user readable by `read_users` |
| Store.DeleteKeepsDecodable | main.py:227-235 | deleting keeps every remaining item readable |
| Store.ContactItem | main.py:369-371 | the contact item is the serialised contact plus `key: {S: dynamo_key(contact.key)}` |
| Store.ContactItemDecodes | main.py:369-382 | the stored contact item decodes as the contact: the extra `key` attribute is ignored |
| Store.ContactItemKey | main.py:369-372 | a contact item is filed under `dynamo_key(contact.key)`, so `put_contact` always succeeds |
| Store.PutContact | main.py:369-372 | `put_contact` changes only the `contacts` table and keeps the store's key invariants |
| Store.GetContact | main.py:375-382 | `get_contact` of a key that renders empty fails; of a non-empty key with nothing stored it returns `None`; a found contact is an instance of `Contact` |
| Store.PutContactThenGet | main.py:369-382 | `get_contact(contact.key)` after `put_contact(contact)` returns the contact |
| Store.PutContactThenGetOther | main.py:369-382 | `put_contact` leaves the contacts under every other int key as they were |
| Store.DeleteContact | main.py:385-389 | on a well-formed store `delete_contact` succeeds exactly when the key renders non-empty, keeps the store well-formed and changes only `contacts` |
| Store.DeleteContactThenGet | main.py:375-389 | `delete_contact(key)` of an int key succeeds exactly when the key has a part; then `get_contact(key)` is `None` and other contacts are unchanged |
| Store.EmptyContactKey | main.py:375-389 | the empty key tuple renders to `""`, so `get_contact(db, ())` and `delete_contact(db, ())` fail |
| Store.PutContactKeepsDecodable | main.py:364-372 | writing through `put_contact` keeps every stored contact readable by `read_contacts` |
| Profile.StripSlashes | main.py:681 | `lstrip('/')` removes a run of leading slashes and nothing else, and the rest does not start with `/` |
| Profile.ParseCommand | main.py:679-681 | a command is found exactly when the text starts with `/`; it is the text after all leading slashes |
| Profile.ParseCommandSlashes | main.py:679-681 | any run of leading slashes names the same command |
| Profile.ParseCommandExamples | main.py:679-681 | `/cancel` and `//cancel` give `cancel`, plain `cancel` gives `None`, `/` gives `""` |
| Profile.SetIntroField | main.py:694-701 | the selected intro field gets the value and every other intro field is kept |
| Profile.LeaveState | main.py:703 | `user.state = None` changes `state` and nothing else |
| Profile.EditStates | main.py:684-703 | the field update's result always has `state` set to `None` and every field other than `state` and `intro` unchanged |
| Profile.EditStatesFails | main.py:688-701 | the field update fails (AttributeError) exactly when it has a field to set and the user has no intro |
| Profile.EditStatesKeepsIntro | main.py:688-703 | on `/cancel`, or in a state that edits nothing, only the state is cleared |
| Profile.EditStatesSetsField | main.py:688-703 | otherwise the field the state selects becomes `None` on `/empty` and the message text on anything else; no other intro field changes |
| Profile.EditCityReply | main.py:684-703 | a user editing the city who replies "Moscow" gets the city set and the name kept |
| Profile.EditCityEmpty | main.py:688-697 | replying `/empty` clears the city |
| Profile.EditCityCancel | main.py:688 | replying `//cancel` changes only the state |
| CallbackData.ClassesValid | neludim/bot/data.py:15-45 | the four callback-data classes have distinct int/str fields, their required fields leading |
| CallbackData.Tokens | neludim/bot/data.py:57-63 | one token per declared field, in declaration order |
| CallbackData.TokenEmpty | neludim/bot/data.py:59-62 | only `None` and `""` give the empty token, and only a str value can put a `:` into a token |
| CallbackData.Serialize | neludim/bot/data.py:55-64 | the output starts with the class prefix and holds at least one `:` per field |
| CallbackData.SerializeShape | neludim/bot/data.py:55-64 | the output splits into the prefix and the field tokens, so it holds exactly one `:` per field when no value contains `:` |
| CallbackData.ParseToken | neludim/bot/data.py:73-76 | an empty token is `None`; a non-empty token of a str field is that str; a non-empty token of an int field is `int(part)` and fails, with ValueError, exactly when `int()` does |
| CallbackData.DecodeFields | neludim/bot/data.py:72-77 | the fields paired so far are exactly the first `n` names; the only failure is a ValueError |
| CallbackData.DecodeFieldsSucceeds | neludim/bot/data.py:72-77 | pairing succeeds if and only if every paired token parses |
| CallbackData.Deserialize | neludim/bot/data.py:67-78 | a decoded instance has exactly the declared fields; a TypeError happens only when fewer tokens than required fields are given |
| CallbackData.DeserializedField | neludim/bot/data.py:72-77 | each field with a token holds what its token parses to; each field without one is `None` |
| CallbackData.DeserializeTyped | neludim/bot/data.py:67-78 | a successful decode is an instance of the class |
| CallbackData.DeserializeIgnoresPrefix | neludim/bot/data.py:68 | the first piece is dropped unread, so any `:`-free prefix decodes alike |
| CallbackData.DeserializeIgnoresExtra | neludim/bot/data.py:72 | tokens beyond the last field are ignored |
| CallbackData.DeserializeMissingRequired | neludim/bot/data.py:72-78 | when fewer tokens than required fields are given, construction raises TypeError naming the first missing field |
| CallbackData.TokenRoundTrip | neludim/bot/data.py:59-76 | a token read back gives the value again, unless the value is `""` |
| CallbackData.RoundTrip | neludim/bot/data.py:55-78 | `deserialize_data(serialize_data(x), type(x)) == x` when the prefix and no str field contains `:` and no str field is `""` |
| CallbackData.EditProfileExample | neludim/bot/data.py:15-19 | `EditProfileData(field='name')` encodes to `edit_profile:name` |
| CallbackData.FeedbackExample | neludim/bot/data.py:30-37 | `FeedbackData(3, 456, None, '2')` encodes to `feedback:3:456::2` |
| CallbackData.FeedbackRoundTrip | neludim/bot/data.py:30-37 | a feedback whose str fields are non-empty and `:`-free reads back as itself |
| CallbackData.FeedbackShort | neludim/bot/data.py:30-37 | `feedback:<week>:<partner>` leaves state and score `None` |
| CallbackData.ParticipateMissing | neludim/bot/data.py:22-27 | `participate:<week>` raises TypeError for `agreed` |
| CallbackData.ReviewProfileMissing | neludim/bot/data.py:40-45 | a bare prefix raises TypeError for `action` |
| CallbackData.ParticipateBadIntExample | neludim/bot/data.py:75-76 | `participate:x:1` raises ValueError |
| CallbackData.EmptyStringLost | neludim/bot/data.py:59-74 | `EditProfileData(field='')` reads back as `field=None` |
| CallbackData.ColonShiftsFields | neludim/bot/data.py:62-72 | a `:` inside `state` spills its second half into `feedback_score` |

## Left out

- The aiobotocore client, `dynamo_client`, `DB.connect`/`close` and the network round trips (main.py:176-235, 397-406). They are I/O. The store is a map from key text to item, and the service's own validation is reduced to the key checks in `Store.PutItem`, `Store.GetItem` and `Store.DeleteItem`: the key attribute must match the table's schema and its value must not be empty.
- DynamoDB's normalisation of `N` values. The model keeps the text `str()` wrote.
- Store.ReadAll: `dynamo_scan` (main.py:201-205) returns the `Items` of the first scan page only and never follows `LastEvaluatedKey`, so `read_users` and `read_contacts` see only part of a table larger than one page. The model assumes every item fits in that page: the scan order, a parameter, is any order that lists every stored key once.
- `Datetime` and `isoformat`/`fromisoformat`. A timestamp is kept as its ISO 8601 text, and reading one back always succeeds. The model does not check the text.
- Decimal.ParseInt: only ASCII digits are accepted, and only tab, newline, vertical tab, form feed, carriage return and space are stripped around them, as `int()` does for ASCII text. Python's `int()` also accepts other Unicode digits and strips non-ASCII Unicode spaces. The contract states only the error case; its success case is stated through `Decimal.ParseIntToString`.
- Annotations other than bool, int, str, Datetime and dataclasses. For those, `dynamo_type` returns `None`. No field of the modelled classes uses one.
- `REVIEW_PROFILE_PREFIX` is imported by data.py but is not defined in const.py. The prefix is a parameter of `CallbackData.ReviewProfileData`.
- Every aiogram handler other than `handle_edit_states`, and the middlewares, filters, keyboards and `message.answer`. They are chat I/O. `handle_edit_states` is modelled as its field update on the user record (main.py:688-703).
- Profile.EditStates: the reply text is not modelled. `show_intro_text(user.intro)` (main.py:705) is a formatter that reads `intro.name` (main.py:510), so when the user has no intro the handler raises AttributeError after the update, even on `/cancel`. The model reports that failure only where the update itself fails (`Profile.EditStatesFails`).
- Decimal.ParseIntToString: integers are unbounded in the model. Since CPython 3.10.7 and 3.11, `str(n)` and `int(text)` raise ValueError beyond 4300 digits (`sys.int_info.default_max_str_digits`), and setup.py pins no Python version; on such an interpreter the round trip holds only within that limit.
- DynamoCodec.RoundTrip: the same digit limit applies to the int fields it stores as `N`. The model promises the round trip for ints of any size.
- Messages without text. The handler reads `message.text`, which the model takes to be a string.
- `week_id` and `Now`: they read the wall clock.
- neludim/bot/handlers.py (its `parse_command` repeats the one in main.py), const.py beyond the prefixes, and setup.py. They are glue, constants and packaging.
