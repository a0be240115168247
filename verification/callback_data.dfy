/**
  The callback-data codec of neludim/bot/data.py. An instance of one of the
  small dataclasses attached to inline buttons is written as its class prefix
  followed by one token per field, all joined with `:`; `None` is the empty
  token. Reading splits on `:`, drops the first piece whatever it is, pairs
  the remaining pieces with the fields in order, and builds the instance from
  what it paired.
 */
module CallbackData {
  import opened Wrappers
  import opened Schema
  import Decimal
  import Delimited

  /**
    A callback-data class: its `prefix`, its fields in declaration order, and
    how many leading fields have no default (those must be given).
   */
  datatype DataClass = DataClass(prefix: string, fields: seq<Field>, required: nat)

  /** Every field is an int or a str. */
  predicate FlatFields(fs: seq<Field>) {
    forall i | 0 <= i < |fs| :: fs[i].ty == Int || fs[i].ty == Str
  }

  predicate ValidClass(c: DataClass) {
    FlatFields(c.fields) && DistinctNames(c.fields) && c.required <= |c.fields|
  }

  /** `EditProfileData(field: str = None)`. */
  function EditProfileData(): DataClass {
    DataClass("edit_profile", [Field("field", Str)], 0)
  }

  /** `ParticipateData(week_index: int, agreed: int)`. */
  function ParticipateData(): DataClass {
    DataClass("participate", [Field("week_index", Int), Field("agreed", Int)], 2)
  }

  /** `FeedbackData(week_index: int, partner_user_id: int, state: str = None, feedback_score: str = None)`. */
  function FeedbackData(): DataClass {
    DataClass("feedback",
      [Field("week_index", Int), Field("partner_user_id", Int), Field("state", Str), Field("feedback_score", Str)],
      2)
  }

  /** `ReviewProfileData(action: str, user_id: int)`; its prefix constant is not defined in const.py. */
  function ReviewProfileData(prefix: string): DataClass {
    DataClass(prefix, [Field("action", Str), Field("user_id", Int)], 2)
  }

  lemma ClassesValid(reviewPrefix: string)
    ensures ValidClass(EditProfileData()) && ValidClass(ParticipateData())
    ensures ValidClass(FeedbackData()) && ValidClass(ReviewProfileData(reviewPrefix))
  {
    assert DistinctNames(FeedbackData().fields) by {
      var fs := FeedbackData().fields;
      assert |fs[0].name| == 10 && |fs[1].name| == 15 && |fs[2].name| == 5 && |fs[3].name| == 14;
    }
  }

  /** A field of an instance of a valid class holds `None`, an int where declared int, or a str where declared str. */
  lemma ClassField(c: DataClass, r: Record, i: nat)
    requires ValidClass(c) && IsRecordOf(r, c.fields) && i < |c.fields|
    ensures c.fields[i].name in r
    ensures r[c.fields[i].name].Some? ==> HasType(r[c.fields[i].name].value, c.fields[i].ty)
    ensures r[c.fields[i].name].Some? ==> r[c.fields[i].name].value.IntV? || r[c.fields[i].name].value.StrV?
  {
    FieldOf(r, c.fields, i);
  }

  /** The token of one field: `''` for `None`, otherwise `str(value)`. */
  function Token(v: Option<Value>): string
    requires v.Some? ==> v.value.IntV? || v.value.StrV?
  {
    match v
    case None => ""
    case Some(x) => if x.IntV? then Decimal.IntToString(x.i) else x.s
  }

  /**
    Only `None` and `""` give the empty token, and only a str value can put a
    `:` into one: an int renders as digits with perhaps a leading `-`.
   */
  lemma TokenEmpty(v: Option<Value>)
    requires v.Some? ==> v.value.IntV? || v.value.StrV?
    ensures Token(v) == "" <==> v.None? || v == Some(StrV(""))
    ensures ':' in Token(v) ==> v.Some? && v.value.StrV?
  {
  }

  /** The tokens of all fields, in declaration order. */
  function Tokens(c: DataClass, r: Record): (tokens: seq<string>)
    requires ValidClass(c) && IsRecordOf(r, c.fields)
    ensures |tokens| == |c.fields|
  {
    seq(|c.fields|, i requires 0 <= i < |c.fields| =>
      ClassField(c, r, i);
      Token(r[c.fields[i].name]))
  }

  /** `serialize_data`: the prefix comes first, and every field adds at least one `:`. */
  function Serialize(c: DataClass, r: Record): (data: string)
    requires ValidClass(c) && IsRecordOf(r, c.fields)
    ensures c.prefix <= data
    ensures Delimited.Count(data, ':') >= |c.fields|
  {
    var parts := [c.prefix] + Tokens(c, r);
    Delimited.JoinCount(parts, ':');
    Delimited.JoinStartsWith(parts, ':');
    Delimited.Join(parts, ':')
  }

  /** `type(part)` for a non-empty token, `None` for the empty one; `int` may raise ValueError. */
  function ParseToken(part: string, ty: FieldType): (r: Result<Option<Value>>)
    requires ty == Int || ty == Str
    ensures r.Ok? && r.value.Some? ==> HasType(r.value.value, ty)
    ensures part == "" ==> r == Ok(None)
    ensures r.Err? ==> ty == Int && r.error == ValueError(part)
    ensures part != "" && ty == Str ==> r == Ok(Some(StrV(part)))
    ensures part != "" && r.Ok? ==> r.value.Some?
    ensures part != "" && ty == Int ==> r.Ok? == Decimal.ParseInt(part).Ok?
    ensures r.Ok? && r.value.Some? && ty == Int ==> Decimal.ParseInt(part) == Ok(r.value.value.i)
  {
    if part == "" then Ok(None)
    else if ty == Int then
      var n :- Decimal.ParseInt(part);
      Ok(Some(IntV(n)))
    else Ok(Some(StrV(part)))
  }

  /** The keyword arguments collected from the first `n` (token, field) pairs; the first bad int raises. */
  function DecodeFields(tokens: seq<string>, fs: seq<Field>, n: nat): (r: Result<Record>)
    requires n <= |tokens| && n <= |fs| && FlatFields(fs)
    ensures r.Ok? ==> r.value.Keys == NamesBelow(fs, n)
    ensures r.Err? ==> r.error.ValueError?
    decreases n
  {
    if n == 0 then Ok(map[])
    else
      var prev :- DecodeFields(tokens, fs, n - 1);
      var v :- ParseToken(tokens[n - 1], fs[n - 1].ty);
      Ok(prev[fs[n - 1].name := v])
  }

  /** The pieces after the first: the tokens `deserialize_data` pairs with the fields. */
  function Pieces(data: string): (tokens: seq<string>)
    ensures |tokens| == Delimited.Count(data, ':')
  {
    Delimited.Split(data, ':')[1..]
  }

  /**
    `deserialize_data(data, cls)`: `zip` stops at the shorter of tokens and
    fields; fields left without a token take their default `None`, and a
    required one left without a token makes the constructor raise TypeError.
   */
  function Deserialize(data: string, c: DataClass): (r: Result<Record>)
    requires ValidClass(c)
    ensures r.Ok? ==> r.value.Keys == Names(c.fields)
    ensures r.Ok? ==> Delimited.Count(data, ':') >= c.required
    ensures r.Err? && r.error.TypeError? ==> Delimited.Count(data, ':') < c.required
  {
    var tokens := Pieces(data);
    var n := if |tokens| < |c.fields| then |tokens| else |c.fields|;
    var kwargs :- DecodeFields(tokens, c.fields, n);
    if n < c.required then Err(TypeError(c.fields[n].name))
    else Ok(map k | k in Names(c.fields) :: if k in kwargs then kwargs[k] else None)
  }

  /** Each paired field holds its token's value. */
  lemma {:induction false} DecodedField(tokens: seq<string>, fs: seq<Field>, n: nat, i: nat)
    requires n <= |tokens| && n <= |fs| && FlatFields(fs) && DistinctNames(fs) && i < n
    requires DecodeFields(tokens, fs, n).Ok?
    ensures ParseToken(tokens[i], fs[i].ty).Ok?
    ensures fs[i].name in DecodeFields(tokens, fs, n).value
    ensures DecodeFields(tokens, fs, n).value[fs[i].name] == ParseToken(tokens[i], fs[i].ty).value
    decreases n
  {
    if i < n - 1 {
      DecodedField(tokens, fs, n - 1, i);
      assert fs[i].name != fs[n - 1].name;
    }
  }

  /** Each of the first `n` tokens parses as its field's type. */
  predicate TokensParse(tokens: seq<string>, fs: seq<Field>, n: nat)
    requires n <= |tokens| && n <= |fs| && FlatFields(fs)
  {
    forall i | 0 <= i < n :: ParseToken(tokens[i], fs[i].ty).Ok?
  }

  /** Pairing succeeds exactly when every paired token parses. */
  lemma {:induction false} DecodeFieldsSucceeds(tokens: seq<string>, fs: seq<Field>, n: nat)
    requires n <= |tokens| && n <= |fs| && FlatFields(fs)
    ensures DecodeFields(tokens, fs, n).Ok? <==> TokensParse(tokens, fs, n)
    decreases n
  {
    if n > 0 {
      DecodeFieldsSucceeds(tokens, fs, n - 1);
      TokensParseStep(tokens, fs, n);
    }
  }

  /** The first `n` tokens parse when the first `n - 1` do and the last one does. */
  lemma TokensParseStep(tokens: seq<string>, fs: seq<Field>, n: nat)
    requires 0 < n <= |tokens| && n <= |fs| && FlatFields(fs)
    ensures TokensParse(tokens, fs, n) <==>
              TokensParse(tokens, fs, n - 1) && ParseToken(tokens[n - 1], fs[n - 1].ty).Ok?
  {
    if TokensParse(tokens, fs, n - 1) && ParseToken(tokens[n - 1], fs[n - 1].ty).Ok? {
      forall i | 0 <= i < n ensures ParseToken(tokens[i], fs[i].ty).Ok? {
        if i < n - 1 {
          assert ParseToken(tokens[i], fs[i].ty).Ok?;
        }
      }
    }
  }

  /** Only the first `n` tokens are looked at. */
  lemma {:induction false} DecodeFieldsSamePrefix(t1: seq<string>, t2: seq<string>, fs: seq<Field>, n: nat)
    requires n <= |t1| && n <= |t2| && n <= |fs| && FlatFields(fs)
    requires t1[..n] == t2[..n]
    ensures DecodeFields(t1, fs, n) == DecodeFields(t2, fs, n)
    decreases n
  {
    if n > 0 {
      assert t1[..n - 1] == t2[..n - 1];
      assert t1[n - 1] == t1[..n][n - 1];
      DecodeFieldsSamePrefix(t1, t2, fs, n - 1);
    }
  }

  /**
    A decoded field holds the value of its token, and `None` when the data
    ran out of tokens before reaching it.
   */
  lemma DeserializedField(data: string, c: DataClass, i: nat)
    requires ValidClass(c) && i < |c.fields| && Deserialize(data, c).Ok?
    ensures c.fields[i].name in Deserialize(data, c).value
    ensures i < |Pieces(data)| ==> ParseToken(Pieces(data)[i], c.fields[i].ty).Ok?
    ensures Deserialize(data, c).value[c.fields[i].name] ==
              if i < |Pieces(data)| then ParseToken(Pieces(data)[i], c.fields[i].ty).value else None
  {
    var tokens := Pieces(data);
    var n := if |tokens| < |c.fields| then |tokens| else |c.fields|;
    var kwargs := DecodeFields(tokens, c.fields, n).value;
    NameBelow(c.fields, |c.fields|, i);
    if i < n {
      DecodedField(tokens, c.fields, n, i);
    } else {
      if c.fields[i].name in kwargs {
        var j := NameIndex(c.fields, n, c.fields[i].name);
      }
    }
  }

  /** `deserialize_data` builds an instance of the class it is given. */
  lemma DeserializeTyped(data: string, c: DataClass)
    requires ValidClass(c) && Deserialize(data, c).Ok?
    ensures IsRecordOf(Deserialize(data, c).value, c.fields)
  {
    forall i | 0 <= i < |c.fields|
      ensures c.fields[i].name in Deserialize(data, c).value
      ensures Deserialize(data, c).value[c.fields[i].name].Some? ==>
                HasType(Deserialize(data, c).value[c.fields[i].name].value, c.fields[i].ty)
    {
      DeserializedField(data, c, i);
    }
  }

  /** No str field holds a `:`. */
  predicate NoColons(c: DataClass, r: Record)
    requires ValidClass(c) && IsRecordOf(r, c.fields)
  {
    forall i | 0 <= i < |c.fields| :: ClassField(c, r, i); ':' !in Token(r[c.fields[i].name])
  }

  /** No str field holds the empty string (which would read back as `None`). */
  predicate NoEmptyStrings(c: DataClass, r: Record)
    requires ValidClass(c) && IsRecordOf(r, c.fields)
  {
    forall i | 0 <= i < |c.fields| :: ClassField(c, r, i); r[c.fields[i].name] != Some(StrV(""))
  }

  /** An int token is digits with perhaps a leading `-`: never a `:`. */
  lemma IntTokenNoColon(n: int)
    ensures ':' !in Decimal.IntToString(n)
  {
    var s := Decimal.IntToString(n);
    forall i | 0 <= i < |s| ensures s[i] != ':' {
    }
  }

  /** Only the str fields matter for `NoColons` and `NoEmptyStrings`: int tokens are always safe. */
  lemma CompactByStrFields(c: DataClass, r: Record)
    requires ValidClass(c) && IsRecordOf(r, c.fields)
    requires forall i | 0 <= i < |c.fields| && c.fields[i].ty == Str ::
               c.fields[i].name in r && (r[c.fields[i].name].Some? ==>
                 r[c.fields[i].name].value.StrV? &&
                 r[c.fields[i].name].value.s != "" && ':' !in r[c.fields[i].name].value.s)
    ensures NoColons(c, r) && NoEmptyStrings(c, r)
  {
    forall i | 0 <= i < |c.fields|
      ensures c.fields[i].name in r
      ensures r[c.fields[i].name].Some? ==> r[c.fields[i].name].value.IntV? || r[c.fields[i].name].value.StrV?
      ensures r[c.fields[i].name] != Some(StrV(""))
      ensures r[c.fields[i].name].Some? && r[c.fields[i].name].value.IntV? ==>
                ':' !in Decimal.IntToString(r[c.fields[i].name].value.i)
      ensures r[c.fields[i].name].Some? && r[c.fields[i].name].value.StrV? ==> ':' !in r[c.fields[i].name].value.s
    {
      ClassField(c, r, i);
      if r[c.fields[i].name].Some? && r[c.fields[i].name].value.IntV? {
        IntTokenNoColon(r[c.fields[i].name].value.i);
      }
    }
  }

  /**
    The shape of `serialize_data`: splitting it on `:` gives back the prefix
    and one token per field, so it holds exactly one `:` per field.
   */
  lemma SerializeShape(c: DataClass, r: Record)
    requires ValidClass(c) && IsRecordOf(r, c.fields) && NoColons(c, r)
    requires ':' !in c.prefix
    ensures Delimited.Split(Serialize(c, r), ':') == [c.prefix] + Tokens(c, r)
    ensures Delimited.Count(Serialize(c, r), ':') == |c.fields|
  {
    var parts := [c.prefix] + Tokens(c, r);
    forall i | 0 <= i < |parts| ensures ':' !in parts[i] {
      if i > 0 {
        ClassField(c, r, i - 1);
      }
    }
    Delimited.SplitJoin(parts, ':');
  }

  /** `str(v)` read back with `type(part)` gives `v` again, unless `v` is `""`. */
  lemma TokenRoundTrip(v: Option<Value>, ty: FieldType)
    requires ty == Int || ty == Str
    requires v.Some? ==> HasType(v.value, ty)
    requires v != Some(StrV(""))
    ensures ParseToken(Token(v), ty) == Ok(v)
  {
    if v.Some? && ty == Int {
      Decimal.ParseIntToString(v.value.i);
    }
  }

  /** Each serialised token reads back as its field's value. */
  lemma SerializedToken(c: DataClass, r: Record, i: nat)
    requires ValidClass(c) && IsRecordOf(r, c.fields) && NoEmptyStrings(c, r) && i < |c.fields|
    ensures c.fields[i].name in r
    ensures ParseToken(Tokens(c, r)[i], c.fields[i].ty) == Ok(r[c.fields[i].name])
  {
    ClassField(c, r, i);
    TokenRoundTrip(r[c.fields[i].name], c.fields[i].ty);
  }

  /** The serialised data decodes, one token per field. */
  lemma SerializedDecodes(c: DataClass, r: Record)
    requires ValidClass(c) && IsRecordOf(r, c.fields)
    requires ':' !in c.prefix && NoColons(c, r) && NoEmptyStrings(c, r)
    ensures Pieces(Serialize(c, r)) == Tokens(c, r)
    ensures Deserialize(Serialize(c, r), c).Ok?
  {
    var fs := c.fields;
    var tokens := Tokens(c, r);
    SerializeShape(c, r);
    forall i | 0 <= i < |fs| ensures ParseToken(tokens[i], fs[i].ty).Ok? {
      SerializedToken(c, r, i);
    }
    DecodeFieldsSucceeds(tokens, fs, |fs|);
  }

  /**
    `deserialize_data(serialize_data(x), type(x)) == x` when the prefix and
    the str fields hold no `:` and no str field is empty.
   */
  lemma RoundTrip(c: DataClass, r: Record)
    requires ValidClass(c) && IsRecordOf(r, c.fields)
    requires ':' !in c.prefix && NoColons(c, r) && NoEmptyStrings(c, r)
    ensures Deserialize(Serialize(c, r), c) == Ok(r)
  {
    var data := Serialize(c, r);
    var fs := c.fields;
    SerializedDecodes(c, r);
    var decoded := Deserialize(data, c).value;
    forall k | k in Names(fs) ensures k in r && decoded[k] == r[k] {
      var i := NameIndex(fs, |fs|, k);
      DeserializedField(data, c, i);
      SerializedToken(c, r, i);
    }
    assert r.Keys == Names(fs) == decoded.Keys;
    assert decoded == r;
  }

  /** The first piece is dropped unread: any `:`-free prefix, the class's own or not, decodes alike. */
  lemma DeserializeIgnoresPrefix(p: string, q: string, rest: string, c: DataClass)
    requires ValidClass(c) && ':' !in p && ':' !in q
    ensures Deserialize(p + rest, c) == Deserialize(q + rest, c)
  {
    Delimited.SplitPrepend(p, ':', rest);
    Delimited.SplitPrepend(q, ':', rest);
    assert Pieces(p + rest) == Pieces(q + rest);
  }

  /** Tokens beyond the last field are ignored. */
  lemma DeserializeIgnoresExtra(data: string, extra: string, c: DataClass)
    requires ValidClass(c) && Delimited.Count(data, ':') >= |c.fields|
    ensures Deserialize(data + ":" + extra, c) == Deserialize(data, c)
  {
    var longer := data + ":" + extra;
    assert longer == data + [':'] + extra;
    Delimited.SplitConcatTail(data, ':', extra);
    var short, long := Pieces(data), Pieces(longer);
    assert long == short + Delimited.Split(extra, ':');
    assert long[..|c.fields|] == short[..|c.fields|];
    DeserializeSameTokens(longer, data, c);
  }

  /** Two data strings whose first tokens, one per field, agree decode alike. */
  lemma DeserializeSameTokens(d1: string, d2: string, c: DataClass)
    requires ValidClass(c)
    requires |Pieces(d1)| >= |c.fields| && |Pieces(d2)| >= |c.fields|
    requires Pieces(d1)[..|c.fields|] == Pieces(d2)[..|c.fields|]
    ensures Deserialize(d1, c) == Deserialize(d2, c)
  {
    DecodeFieldsSamePrefix(Pieces(d1), Pieces(d2), c.fields, |c.fields|);
  }

  /**
    Data with fewer tokens than required fields raises TypeError, naming the
    first field left without a token, once every token present has parsed.
   */
  lemma DeserializeMissingRequired(data: string, c: DataClass)
    requires ValidClass(c) && Delimited.Count(data, ':') < c.required
    requires TokensParse(Pieces(data), c.fields, |Pieces(data)|)
    ensures Deserialize(data, c) == Err(TypeError(c.fields[Delimited.Count(data, ':')].name))
  {
    DecodeFieldsSucceeds(Pieces(data), c.fields, |Pieces(data)|);
  }

  /**
    Conversely, data whose tokens parse field by field to the values of
    `expected`, with `None` past the last token, reads back as exactly `expected`.
   */
  lemma IntTokenParses(n: int)
    ensures ParseToken(Decimal.IntToString(n), Int) == Ok(Some(IntV(n)))
  {
    Decimal.ParseIntToString(n);
  }

  lemma StrTokenParses(s: string)
    requires s != ""
    ensures ParseToken(s, Str) == Ok(Some(StrV(s)))
  {
  }

  /**
    Each field of `c` holds in `expected` what its token parses to, and
    `None` when it has no token.
   */
  predicate TokensDecodeTo(tokens: seq<string>, c: DataClass, expected: Record)
    requires ValidClass(c)
  {
    forall i | 0 <= i < |c.fields| ::
      c.fields[i].name in expected &&
      if i < |tokens| then ParseToken(tokens[i], c.fields[i].ty) == Ok(expected[c.fields[i].name])
      else expected[c.fields[i].name] == None
  }

  lemma DeserializeExactly(data: string, c: DataClass, expected: Record)
    requires ValidClass(c) && Delimited.Count(data, ':') >= c.required
    requires expected.Keys == Names(c.fields)
    requires TokensDecodeTo(Pieces(data), c, expected)
    ensures Deserialize(data, c) == Ok(expected)
  {
    var tokens := Pieces(data);
    var fs := c.fields;
    var n := if |tokens| < |fs| then |tokens| else |fs|;
    assert TokensParse(tokens, fs, n);
    DecodeFieldsSucceeds(tokens, fs, n);
    var decoded := Deserialize(data, c).value;
    forall k | k in Names(fs) ensures decoded[k] == expected[k] {
      var i := NameIndex(fs, |fs|, k);
      DeserializedField(data, c, i);
    }
    assert decoded == expected;
  }

  /** The tokens of `:`-free parts joined with `:` are the parts after the first. */
  lemma PiecesOfJoin(parts: seq<string>)
    requires |parts| > 0 && forall i | 0 <= i < |parts| :: ':' !in parts[i]
    ensures Pieces(Delimited.Join(parts, ':')) == parts[1..]
  {
    Delimited.SplitJoin(parts, ':');
  }

  /** `FeedbackData(week_index, partner_user_id, state, feedback_score)` with the given str fields. */
  function Feedback(week: int, partner: int, state: Option<string>, score: Option<string>): Record {
    map["week_index" := Some(IntV(week)), "partner_user_id" := Some(IntV(partner)),
        "state" := StrField(state), "feedback_score" := StrField(score)]
  }

  function StrField(s: Option<string>): Option<Value> {
    if s.Some? then Some(StrV(s.value)) else None
  }

  function StrToken(s: Option<string>): string {
    if s.Some? then s.value else ""
  }

  lemma FeedbackNames()
    ensures Names(FeedbackData().fields) == {"week_index", "partner_user_id", "state", "feedback_score"}
  {
    ClassesValid("");
    var fs := FeedbackData().fields;
    assert NamesBelow(fs, 1) == {"week_index"};
    assert NamesBelow(fs, 2) == {"week_index", "partner_user_id"};
    assert NamesBelow(fs, 3) == {"week_index", "partner_user_id", "state"};
  }

  lemma FeedbackTyped(week: int, partner: int, state: Option<string>, score: Option<string>)
    ensures IsRecordOf(Feedback(week, partner, state, score), FeedbackData().fields)
  {
    ClassesValid("");
    FeedbackNames();
  }

  lemma FeedbackTokens(week: int, partner: int, state: Option<string>, score: Option<string>)
    ensures IsRecordOf(Feedback(week, partner, state, score), FeedbackData().fields)
    ensures [FeedbackData().prefix] + Tokens(FeedbackData(), Feedback(week, partner, state, score)) ==
              ["feedback", Decimal.IntToString(week), Decimal.IntToString(partner), StrToken(state), StrToken(score)]
  {
    ClassesValid("");
    FeedbackTyped(week, partner, state, score);
    var tokens := Tokens(FeedbackData(), Feedback(week, partner, state, score));
    assert tokens[0] == Decimal.IntToString(week);
    assert tokens[1] == Decimal.IntToString(partner);
    assert tokens[2] == StrToken(state);
    assert tokens[3] == StrToken(score);
  }

  lemma EditProfileTyped(field: Option<string>)
    ensures IsRecordOf(map["field" := StrField(field)], EditProfileData().fields)
    ensures [EditProfileData().prefix] + Tokens(EditProfileData(), map["field" := StrField(field)]) ==
              ["edit_profile", StrToken(field)]
  {
    ClassesValid("");
    assert NamesBelow(EditProfileData().fields, 1) == {"field"};
  }

  lemma EditProfileText()
    ensures Delimited.Join(["edit_profile", "name"], ':') == "edit_profile:name"
  {
    Delimited.JoinCons("edit_profile", ["name"], ':');
  }

  lemma FeedbackText()
    ensures Delimited.Join(["feedback", "3", "456", "", "2"], ':') == "feedback:3:456::2"
  {
    Delimited.JoinCons("", ["2"], ':');
    Delimited.JoinCons("456", ["", "2"], ':');
    Delimited.JoinCons("3", ["456", "", "2"], ':');
    Delimited.JoinCons("feedback", ["3", "456", "", "2"], ':');
  }

  lemma ExampleInts()
    ensures Decimal.IntToString(3) == "3" && Decimal.IntToString(456) == "456"
  {
    assert Decimal.NatToString(45) == "45" by {
      assert Decimal.NatToString(4) == "4";
    }
  }

  /** `serialize_data(EditProfileData(field='name')) == 'edit_profile:name'`. */
  lemma EditProfileExample()
    ensures IsRecordOf(map["field" := Some(StrV("name"))], EditProfileData().fields)
    ensures Serialize(EditProfileData(), map["field" := Some(StrV("name"))]) == "edit_profile:name"
  {
    ClassesValid("");
    EditProfileTyped(Some("name"));
    EditProfileText();
  }

  /** A missing value is an empty token: `FeedbackData(3, 456, None, '2')` is `feedback:3:456::2`. */
  lemma FeedbackExample()
    ensures IsRecordOf(Feedback(3, 456, None, Some("2")), FeedbackData().fields)
    ensures Serialize(FeedbackData(), Feedback(3, 456, None, Some("2"))) == "feedback:3:456::2"
  {
    ClassesValid("");
    FeedbackTokens(3, 456, None, Some("2"));
    ExampleInts();
    FeedbackText();
  }

  /** A feedback whose str fields are non-empty and `:`-free reads back as itself. */
  lemma FeedbackRoundTrip(week: int, partner: int, state: Option<string>, score: Option<string>)
    requires state.Some? ==> state.value != "" && ':' !in state.value
    requires score.Some? ==> score.value != "" && ':' !in score.value
    ensures IsRecordOf(Feedback(week, partner, state, score), FeedbackData().fields)
    ensures Deserialize(Serialize(FeedbackData(), Feedback(week, partner, state, score)), FeedbackData()) ==
              Ok(Feedback(week, partner, state, score))
  {
    ClassesValid("");
    var r := Feedback(week, partner, state, score);
    FeedbackTyped(week, partner, state, score);
    CompactByStrFields(FeedbackData(), r);
    RoundTrip(FeedbackData(), r);
  }

  /** Trailing fields with defaults may be left out: `feedback:<week>:<partner>` leaves state and score `None`. */
  lemma FeedbackShort(week: int, partner: int)
    ensures Deserialize(Delimited.Join(["feedback", Decimal.IntToString(week), Decimal.IntToString(partner)], ':'),
                        FeedbackData()) == Ok(Feedback(week, partner, None, None))
  {
    ClassesValid("");
    IntTokenNoColon(week);
    IntTokenNoColon(partner);
    var parts := ["feedback", Decimal.IntToString(week), Decimal.IntToString(partner)];
    PiecesOfJoin(parts);
    FeedbackShortTokens(Delimited.Join(parts, ':'), week, partner);
  }

  lemma FeedbackShortTokens(data: string, week: int, partner: int)
    requires Pieces(data) == [Decimal.IntToString(week), Decimal.IntToString(partner)]
    ensures Deserialize(data, FeedbackData()) == Ok(Feedback(week, partner, None, None))
  {
    ClassesValid("");
    FeedbackTyped(week, partner, None, None);
    FeedbackShortFields(week, partner);
    DeserializeExactly(data, FeedbackData(), Feedback(week, partner, None, None));
  }

  lemma FeedbackShortFields(week: int, partner: int)
    ensures TokensDecodeTo([Decimal.IntToString(week), Decimal.IntToString(partner)], FeedbackData(),
                           Feedback(week, partner, None, None))
  {
    ClassesValid("");
    var tokens := [Decimal.IntToString(week), Decimal.IntToString(partner)];
    var fs, expected := FeedbackData().fields, Feedback(week, partner, None, None);
    forall i | 0 <= i < |fs|
      ensures fs[i].name in expected
      ensures if i < |tokens| then ParseToken(tokens[i], fs[i].ty) == Ok(expected[fs[i].name])
              else expected[fs[i].name] == None
    {
      if i == 0 {
        IntTokenParses(week);
        assert expected[fs[i].name] == Some(IntV(week));
      } else if i == 1 {
        IntTokenParses(partner);
        assert expected[fs[i].name] == Some(IntV(partner));
      } else {
        assert expected[fs[i].name] == None;
      }
    }
  }

  /** A required field without a token: `participate:<week>` raises TypeError for `agreed`. */
  lemma ParticipateMissing(week: int)
    ensures Deserialize(Delimited.Join(["participate", Decimal.IntToString(week)], ':'), ParticipateData()) ==
              Err(TypeError("agreed"))
  {
    ClassesValid("");
    IntTokenNoColon(week);
    PiecesOfJoin(["participate", Decimal.IntToString(week)]);
    Decimal.ParseIntToString(week);
  }

  /** Data holding only a prefix gives no `action`, which `ReviewProfileData` requires: TypeError. */
  lemma ReviewProfileMissing(prefix: string)
    requires ':' !in prefix
    ensures Deserialize(prefix, ReviewProfileData(prefix)) == Err(TypeError("action"))
  {
    ClassesValid(prefix);
    Delimited.CountAbsent(prefix, ':');
    DeserializeMissingRequired(prefix, ReviewProfileData(prefix));
  }

  /** A token that is not an int: `participate:x:1` raises ValueError. */
  lemma ParticipateBadIntExample()
    ensures Deserialize(Delimited.Join(["participate", "x", "1"], ':'), ParticipateData()) == Err(ValueError("x"))
  {
    ClassesValid("");
    PiecesOfJoin(["participate", "x", "1"]);
    assert Decimal.ParseInt("x").Err?;
  }

  /** The round trip needs non-empty strings: `EditProfileData(field='')` is `edit_profile:`, which reads back as `field=None`. */
  lemma EmptyStringLost()
    ensures IsRecordOf(map["field" := Some(StrV(""))], EditProfileData().fields)
    ensures Deserialize(Serialize(EditProfileData(), map["field" := Some(StrV(""))]), EditProfileData()) ==
              Ok(map["field" := None])
  {
    ClassesValid("");
    EditProfileTyped(Some(""));
    PiecesOfJoin(["edit_profile", ""]);
    EmptyTokenDecodes(Delimited.Join(["edit_profile", ""], ':'));
  }

  lemma EmptyTokenDecodes(data: string)
    requires Pieces(data) == [""]
    ensures Deserialize(data, EditProfileData()) == Ok(map["field" := None])
  {
    ClassesValid("");
    EditProfileTyped(None);
    assert TokensDecodeTo([""], EditProfileData(), map["field" := None]);
    DeserializeExactly(data, EditProfileData(), map["field" := None]);
  }

  /**
    The round trip needs `:`-free strings: a state `a:b` (with no score)
    reads back as state `a` and score `b`.
   */
  lemma ColonShiftsFields(week: int, partner: int, a: string, b: string)
    requires a != "" && ':' !in a && b != "" && ':' !in b
    ensures IsRecordOf(Feedback(week, partner, Some(a + ":" + b), None), FeedbackData().fields)
    ensures Deserialize(Serialize(FeedbackData(), Feedback(week, partner, Some(a + ":" + b), None)), FeedbackData()) ==
              Ok(Feedback(week, partner, Some(a), Some(b)))
  {
    ClassesValid("");
    var w, p := Decimal.IntToString(week), Decimal.IntToString(partner);
    FeedbackTokens(week, partner, Some(a + ":" + b), None);
    Delimited.JoinCons(a, [b, ""], ':');
    Delimited.JoinCons(a + ":" + b, [""], ':');
    Delimited.JoinCons(b, [""], ':');
    assert Delimited.Join([a + ":" + b, ""], ':') == Delimited.Join([a, b, ""], ':');
    Delimited.JoinCons(p, [a + ":" + b, ""], ':');
    Delimited.JoinCons(p, [a, b, ""], ':');
    Delimited.JoinCons(w, [p, a + ":" + b, ""], ':');
    Delimited.JoinCons(w, [p, a, b, ""], ':');
    Delimited.JoinCons("feedback", [w, p, a + ":" + b, ""], ':');
    Delimited.JoinCons("feedback", [w, p, a, b, ""], ':');
    ColonDecodes(week, partner, a, b);
  }

  lemma ColonDecodes(week: int, partner: int, a: string, b: string)
    requires a != "" && ':' !in a && b != "" && ':' !in b
    ensures Deserialize(Delimited.Join(["feedback", Decimal.IntToString(week), Decimal.IntToString(partner), a, b, ""], ':'),
                        FeedbackData()) == Ok(Feedback(week, partner, Some(a), Some(b)))
  {
    ClassesValid("");
    IntTokenNoColon(week);
    IntTokenNoColon(partner);
    var parts := ["feedback", Decimal.IntToString(week), Decimal.IntToString(partner), a, b, ""];
    PiecesOfJoin(parts);
    ColonTokens(Delimited.Join(parts, ':'), week, partner, a, b);
  }

  lemma ColonTokens(data: string, week: int, partner: int, a: string, b: string)
    requires a != "" && b != ""
    requires Pieces(data) == [Decimal.IntToString(week), Decimal.IntToString(partner), a, b, ""]
    ensures Deserialize(data, FeedbackData()) == Ok(Feedback(week, partner, Some(a), Some(b)))
  {
    ClassesValid("");
    FeedbackTyped(week, partner, Some(a), Some(b));
    ColonFields(week, partner, a, b);
    DeserializeExactly(data, FeedbackData(), Feedback(week, partner, Some(a), Some(b)));
  }

  lemma ColonFields(week: int, partner: int, a: string, b: string)
    requires a != "" && b != ""
    ensures TokensDecodeTo([Decimal.IntToString(week), Decimal.IntToString(partner), a, b, ""], FeedbackData(),
                           Feedback(week, partner, Some(a), Some(b)))
  {
    ClassesValid("");
    var tokens := [Decimal.IntToString(week), Decimal.IntToString(partner), a, b, ""];
    var fs, expected := FeedbackData().fields, Feedback(week, partner, Some(a), Some(b));
    forall i | 0 <= i < |fs|
      ensures fs[i].name in expected
      ensures if i < |tokens| then ParseToken(tokens[i], fs[i].ty) == Ok(expected[fs[i].name])
              else expected[fs[i].name] == None
    {
      if i == 0 {
        IntTokenParses(week);
        assert expected[fs[i].name] == Some(IntV(week));
      } else if i == 1 {
        IntTokenParses(partner);
        assert expected[fs[i].name] == Some(IntV(partner));
      } else if i == 2 {
        StrTokenParses(a);
        assert expected[fs[i].name] == Some(StrV(a));
      } else {
        StrTokenParses(b);
        assert expected[fs[i].name] == Some(StrV(b));
      }
    }
  }
}
