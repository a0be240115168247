/**
  The DynamoDB item codec of main.py: `dynamo_type`, `dynamo_serialize_value`,
  `dynamo_deserialize_value`, `dynamo_serialize_item` and
  `dynamo_deserialize_item`. An item maps attribute names to one-entry tagged
  values; absent (`None`) fields are left out of the item.
 */
module DynamoCodec {
  import opened Wrappers
  import opened Schema
  import Decimal

  /** The tagged values written here: `{BOOL: b}`, `{N: "12"}`, `{S: "x"}`, `{M: {...}}`. */
  datatype AttrValue =
    | BOOL(b: bool)
    | N(n: string)
    | S(s: string)
    | M(m: map<string, AttrValue>)

  type Item = map<string, AttrValue>

  datatype Tag = TagBOOL | TagN | TagS | TagM

  function TagName(tag: Tag): string {
    match tag
    case TagBOOL => "BOOL"
    case TagN => "N"
    case TagS => "S"
    case TagM => "M"
  }

  function TagOf(a: AttrValue): Tag {
    match a
    case BOOL(_) => TagBOOL
    case N(_) => TagN
    case S(_) => TagS
    case M(_) => TagM
  }

  /** `dynamo_type`: the tag an annotation is stored under. */
  function DynamoType(t: FieldType): Tag
  {
    match t
    case Bool => TagBOOL
    case Int => TagN
    case Str => TagS
    case Time => TagS
    case Rec(_) => TagM
  }

  /** Each annotation has its own tag, except str and Datetime, which share `S`. */
  lemma DynamoTypeTags(t: FieldType)
    ensures DynamoType(t) == TagBOOL <==> t == Bool
    ensures DynamoType(t) == TagN <==> t == Int
    ensures DynamoType(t) == TagS <==> t == Str || t == Time
    ensures DynamoType(t) == TagM <==> t.Rec?
  {
  }

  /** `{dynamo_type(annot): dynamo_serialize_value(value, annot)}` for a present value. */
  function SerializeValue(v: Value, t: FieldType): (a: AttrValue)
    requires HasType(v, t)
    ensures TagOf(a) == DynamoType(t)
    decreases t, 1
  {
    match t
    case Bool => BOOL(v.b)
    case Int => N(Decimal.IntToString(v.i))
    case Str => S(v.s)
    case Time => S(v.t.iso)
    case Rec(fs) => M(SerializeFields(v.rec, fs, |fs|))
  }

  /** The item `dynamo_serialize_item` has built after visiting the first `n` fields. */
  function SerializeFields(r: Record, fs: seq<Field>, n: nat): (item: Item)
    requires n <= |fs| && IsRecordOf(r, fs)
    ensures forall i | 0 <= i < n :: fs[i].name in item <==> r[fs[i].name].Some?
    ensures forall k | k in item :: k in NamesBelow(fs, n) && k in r && r[k].Some?
    decreases fs, n
  {
    if n == 0 then map[]
    else
      var item := SerializeFields(r, fs, n - 1);
      var f := fs[n - 1];
      match r[f.name]
      case None => item
      case Some(v) => item[f.name := SerializeValue(v, f.ty)]
  }

  /** `dynamo_serialize_item`: exactly the fields that are not `None` appear. */
  function SerializeItem(r: Record, fs: seq<Field>): (item: Item)
    requires IsRecordOf(r, fs)
    ensures forall k :: k in item <==> k in r && r[k].Some?
  {
    var item := SerializeFields(r, fs, |fs|);
    assert forall k :: k in item <==> k in r && r[k].Some? by {
      forall k ensures k in item <==> k in r && r[k].Some? {
        if k in item || k in r {
          var i := NameIndex(fs, |fs|, k);
        }
      }
    }
    item
  }

  /**
    `dynamo_deserialize_value(item[name][dynamo_type(annot)], annot)`: looking up
    the wrong tag raises KeyError, `int(...)` may raise ValueError.
   */
  function DeserializeValue(a: AttrValue, t: FieldType): (r: Result<Value>)
    ensures TagOf(a) != DynamoType(t) ==> r == Err(KeyError(TagName(DynamoType(t))))
    decreases t, 1
  {
    if TagOf(a) != DynamoType(t) then Err(KeyError(TagName(DynamoType(t))))
    else
      match t
      case Bool => Ok(BoolV(a.b))
      case Int =>
        var n :- Decimal.ParseInt(a.n);
        Ok(IntV(n))
      case Str => Ok(StrV(a.s))
      case Time => Ok(TimeV(Timestamp(a.s)))
      case Rec(fs) =>
        var rec :- DeserializeFields(a.m, fs, |fs|);
        Ok(RecV(rec))
  }

  /**
    The keyword arguments `dynamo_deserialize_item` has collected after the
    first `n` fields; the first failing field in declaration order decides the error.
   */
  function DeserializeFields(item: Item, fs: seq<Field>, n: nat): (r: Result<Record>)
    requires n <= |fs|
    ensures r.Ok? ==> r.value.Keys == NamesBelow(fs, n)
    ensures r.Ok? ==> forall k | k in r.value && k !in item :: r.value[k] == None
    decreases fs, n
  {
    if n == 0 then Ok(map[])
    else
      var prev :- DeserializeFields(item, fs, n - 1);
      var f := fs[n - 1];
      if f.name in item then
        var v :- DeserializeValue(item[f.name], f.ty);
        Ok(prev[f.name := Some(v)])
      else
        Ok(prev[f.name := None])
  }

  /**
    `dynamo_deserialize_item`: every declared field missing from the item comes
    back `None`; attributes that are not declared fields are not looked at.
   */
  function DeserializeItem(item: Item, fs: seq<Field>): (r: Result<Record>)
    ensures r.Ok? ==> r.value.Keys == Names(fs)
    ensures r.Ok? ==> forall k | k in r.value && k !in item :: r.value[k] == None
  {
    DeserializeFields(item, fs, |fs|)
  }

  /** A present field is stored under its own name as its serialised value. */
  lemma {:induction false} SerializedEntry(r: Record, fs: seq<Field>, n: nat, i: nat)
    requires i < n <= |fs| && IsRecordOf(r, fs) && DistinctNames(fs)
    requires r[fs[i].name].Some?
    ensures fs[i].name in SerializeFields(r, fs, n)
    ensures SerializeFields(r, fs, n)[fs[i].name] == SerializeValue(r[fs[i].name].value, fs[i].ty)
    decreases n
  {
    if i < n - 1 {
      var k := fs[i].name;
      assert k != fs[n - 1].name;
      SerializedEntry(r, fs, n - 1, i);
      SerializeFieldsKeeps(r, fs, n, k);
      assert SerializeFields(r, fs, n)[k] == SerializeFields(r, fs, n - 1)[k];
    } else {
      SerializeFieldsLast(r, fs, n);
    }
  }

  /** Visiting field `n - 1` leaves every other attribute as it was. */
  lemma SerializeFieldsKeeps(r: Record, fs: seq<Field>, n: nat, k: string)
    requires 0 < n <= |fs| && IsRecordOf(r, fs) && k != fs[n - 1].name
    ensures k in SerializeFields(r, fs, n) <==> k in SerializeFields(r, fs, n - 1)
    ensures k in SerializeFields(r, fs, n - 1) ==> SerializeFields(r, fs, n)[k] == SerializeFields(r, fs, n - 1)[k]
  {
  }

  /** Visiting a present field `n - 1` stores its serialised value. */
  lemma SerializeFieldsLast(r: Record, fs: seq<Field>, n: nat)
    requires 0 < n <= |fs| && IsRecordOf(r, fs) && r[fs[n - 1].name].Some?
    ensures fs[n - 1].name in SerializeFields(r, fs, n)
    ensures SerializeFields(r, fs, n)[fs[n - 1].name] == SerializeValue(r[fs[n - 1].name].value, fs[n - 1].ty)
  {
  }

  /**
    `dynamo_serialize_item` tags a present field by `dynamo_type` of its
    annotation and keeps `False`, `0` and `""`: only `None` is left out.
   */
  lemma SerializeItemTag(r: Record, fs: seq<Field>, i: nat)
    requires IsRecordOf(r, fs) && DistinctNames(fs)
    requires i < |fs| && r[fs[i].name].Some?
    ensures fs[i].name in SerializeItem(r, fs)
    ensures TagOf(SerializeItem(r, fs)[fs[i].name]) == DynamoType(fs[i].ty)
  {
    SerializedEntry(r, fs, |fs|, i);
  }

  /** Each of the first `n` declared fields that the item holds decodes on its own. */
  predicate PresentFieldsDecode(item: Item, fs: seq<Field>, n: nat)
    requires n <= |fs|
  {
    forall i | 0 <= i < n && fs[i].name in item :: DeserializeValue(item[fs[i].name], fs[i].ty).Ok?
  }

  /** Decoding succeeds exactly when every declared attribute present in the item decodes. */
  lemma {:induction false} DeserializeFieldsSucceeds(item: Item, fs: seq<Field>, n: nat)
    requires n <= |fs|
    ensures DeserializeFields(item, fs, n).Ok? <==> PresentFieldsDecode(item, fs, n)
    decreases n
  {
    if n > 0 {
      DeserializeFieldsSucceeds(item, fs, n - 1);
      PresentFieldsDecodeStep(item, fs, n);
    }
  }

  /** The present attributes among the first `n` fields decode when those among the first `n - 1` and the last do. */
  lemma PresentFieldsDecodeStep(item: Item, fs: seq<Field>, n: nat)
    requires 0 < n <= |fs|
    ensures PresentFieldsDecode(item, fs, n) <==>
              && PresentFieldsDecode(item, fs, n - 1)
              && (fs[n - 1].name in item ==> DeserializeValue(item[fs[n - 1].name], fs[n - 1].ty).Ok?)
  {
    var f := fs[n - 1];
    if PresentFieldsDecode(item, fs, n - 1) && (f.name in item ==> DeserializeValue(item[f.name], f.ty).Ok?) {
      forall i | 0 <= i < n && fs[i].name in item ensures DeserializeValue(item[fs[i].name], fs[i].ty).Ok? {
        if i < n - 1 {
          assert DeserializeValue(item[fs[i].name], fs[i].ty).Ok?;
        }
      }
    }
  }

  /** A decoded value has the annotation it was decoded against. */
  lemma {:induction false} DeserializeValueTyped(a: AttrValue, t: FieldType)
    requires WellFormed(t)
    ensures DeserializeValue(a, t).Ok? ==> HasType(DeserializeValue(a, t).value, t)
    decreases t, 1
  {
    if DeserializeValue(a, t).Ok? && t.Rec? {
      DeserializeFieldsTyped(a.m, t.fields, |t.fields|);
    }
  }

  /** Decoded fields have their declared annotations. */
  lemma {:induction false} DeserializeFieldsTyped(item: Item, fs: seq<Field>, n: nat)
    requires WellFormed(Rec(fs)) && n <= |fs|
    ensures DeserializeFields(item, fs, n).Ok? ==>
              forall i | 0 <= i < n ::
                && fs[i].name in DeserializeFields(item, fs, n).value
                && (DeserializeFields(item, fs, n).value[fs[i].name].Some? ==>
                      HasType(DeserializeFields(item, fs, n).value[fs[i].name].value, fs[i].ty))
    decreases fs, n
  {
    var r := DeserializeFields(item, fs, n);
    if n > 0 && r.Ok? {
      DeserializeFieldsTyped(item, fs, n - 1);
      var f := fs[n - 1];
      if f.name in item {
        DeserializeValueTyped(item[f.name], f.ty);
      }
      forall i | 0 <= i < n
        ensures fs[i].name in r.value
        ensures r.value[fs[i].name].Some? ==> HasType(r.value[fs[i].name].value, fs[i].ty)
      {
        if i < n - 1 {
          assert fs[i].name != f.name;
        }
      }
    }
  }

  /** `dynamo_deserialize_item` yields an instance of the dataclass it is given. */
  lemma DeserializeItemTyped(item: Item, fs: seq<Field>)
    requires WellFormed(Rec(fs))
    ensures DeserializeItem(item, fs).Ok? ==> IsRecordOf(DeserializeItem(item, fs).value, fs)
  {
    DeserializeFieldsTyped(item, fs, |fs|);
  }

  /** The first `n` fields of `r`, added one at a time in declaration order. */
  function Prefix(r: Record, fs: seq<Field>, n: nat): Record
    requires n <= |fs| && IsRecordOf(r, fs)
  {
    if n == 0 then map[]
    else
      FieldOf(r, fs, n - 1);
      Prefix(r, fs, n - 1)[fs[n - 1].name := r[fs[n - 1].name]]
  }

  /** The first `n` fields of `r` are `r` restricted to their names. */
  lemma {:induction false} PrefixAgrees(r: Record, fs: seq<Field>, n: nat)
    requires n <= |fs| && IsRecordOf(r, fs)
    ensures Prefix(r, fs, n).Keys == NamesBelow(fs, n)
    ensures forall k | k in Prefix(r, fs, n) :: k in r && Prefix(r, fs, n)[k] == r[k]
    decreases n
  {
    if n > 0 {
      PrefixAgrees(r, fs, n - 1);
    }
  }

  /** All the fields of `r` are `r`. */
  lemma PrefixWhole(r: Record, fs: seq<Field>)
    requires IsRecordOf(r, fs)
    ensures Prefix(r, fs, |fs|) == r
  {
    PrefixAgrees(r, fs, |fs|);
  }

  /** Decoding the serialised item recovers the first `n` fields. */
  predicate DecodesToPrefix(r: Record, fs: seq<Field>, n: nat)
    requires IsRecordOf(r, fs) && n <= |fs|
  {
    DeserializeFields(SerializeItem(r, fs), fs, n) == Ok(Prefix(r, fs, n))
  }

  lemma {:induction false} RoundTripFields(r: Record, fs: seq<Field>, n: nat)
    requires WellFormed(Rec(fs)) && IsRecordOf(r, fs) && n <= |fs|
    ensures DecodesToPrefix(r, fs, n)
    decreases fs, n, 1
  {
    if n > 0 {
      RoundTripFields(r, fs, n - 1);
      RoundTripStep(r, fs, n);
    }
  }

  /** Decoding one more field of the serialised item recovers one more field of the record. */
  lemma RoundTripStep(r: Record, fs: seq<Field>, n: nat)
    requires WellFormed(Rec(fs)) && IsRecordOf(r, fs) && 0 < n <= |fs|
    requires DecodesToPrefix(r, fs, n - 1)
    ensures DecodesToPrefix(r, fs, n)
    decreases fs, n, 0
  {
    var item, f := SerializeItem(r, fs), fs[n - 1];
    FieldOf(r, fs, n - 1);
    assert DeserializeFields(item, fs, n - 1) == Ok(Prefix(r, fs, n - 1));
    if r[f.name].Some? {
      RoundTripEntry(r, fs, n - 1);
      DeserializeFieldsPresent(item, fs, n, r[f.name].value);
    } else {
      assert f.name !in item;
      DeserializeFieldsAbsent(item, fs, n);
    }
  }

  /** A field the item lacks decodes to `None`. */
  lemma DeserializeFieldsAbsent(item: Item, fs: seq<Field>, n: nat)
    requires 0 < n <= |fs| && DeserializeFields(item, fs, n - 1).Ok? && fs[n - 1].name !in item
    ensures DeserializeFields(item, fs, n) == Ok(DeserializeFields(item, fs, n - 1).value[fs[n - 1].name := None])
  {
  }

  /** A field the item holds and that decodes to `v` is added to what the earlier fields decoded to. */
  lemma DeserializeFieldsPresent(item: Item, fs: seq<Field>, n: nat, v: Value)
    requires 0 < n <= |fs| && DeserializeFields(item, fs, n - 1).Ok?
    requires fs[n - 1].name in item && DeserializeValue(item[fs[n - 1].name], fs[n - 1].ty) == Ok(v)
    ensures DeserializeFields(item, fs, n) == Ok(DeserializeFields(item, fs, n - 1).value[fs[n - 1].name := Some(v)])
  {
  }

  /** A present field's stored attribute decodes to the field's value. */
  lemma RoundTripEntry(r: Record, fs: seq<Field>, i: nat)
    requires WellFormed(Rec(fs)) && IsRecordOf(r, fs) && i < |fs|
    requires r[fs[i].name].Some?
    ensures fs[i].name in SerializeItem(r, fs)
    ensures DeserializeValue(SerializeItem(r, fs)[fs[i].name], fs[i].ty) == Ok(r[fs[i].name].value)
    decreases fs, 0
  {
    SerializedEntry(r, fs, |fs|, i);
    RoundTripValue(r[fs[i].name].value, fs[i].ty);
  }

  /** `dynamo_deserialize_value(dynamo_serialize_value(v, t), t) == v`. */
  lemma {:induction false} RoundTripValue(v: Value, t: FieldType)
    requires WellFormed(t) && HasType(v, t)
    ensures DeserializeValue(SerializeValue(v, t), t) == Ok(v)
    decreases t, 1
  {
    match t
    case Bool =>
    case Int => Decimal.ParseIntToString(v.i);
    case Str =>
    case Time =>
    case Rec(fs) =>
      RoundTripFields(v.rec, fs, |fs|);
      PrefixWhole(v.rec, fs);
  }

  /**
    `dynamo_deserialize_item(dynamo_serialize_item(x), type(x)) == x` for every
    instance, nested dataclasses and `None` fields included.
   */
  lemma RoundTrip(r: Record, fs: seq<Field>)
    requires WellFormed(Rec(fs)) && IsRecordOf(r, fs)
    ensures DeserializeItem(SerializeItem(r, fs), fs) == Ok(r)
  {
    RoundTripValue(RecV(r), Rec(fs));
  }

  /** Two instances of one dataclass never share an item. */
  lemma SerializeItemInjective(r1: Record, r2: Record, fs: seq<Field>)
    requires WellFormed(Rec(fs)) && IsRecordOf(r1, fs) && IsRecordOf(r2, fs)
    requires SerializeItem(r1, fs) == SerializeItem(r2, fs)
    ensures r1 == r2
  {
    RoundTrip(r1, fs);
    RoundTrip(r2, fs);
  }

  /** Attributes that are not declared fields do not affect decoding. */
  lemma {:induction false} DeserializeIgnoresUndeclared(item: Item, extra: Item, fs: seq<Field>, n: nat)
    requires n <= |fs|
    requires forall k | k in extra :: k !in Names(fs)
    ensures DeserializeFields(item + extra, fs, n) == DeserializeFields(item, fs, n)
    decreases n
  {
    if n > 0 {
      DeserializeIgnoresUndeclared(item, extra, fs, n - 1);
      var f := fs[n - 1];
      NameBelow(fs, |fs|, n - 1);
      assert f.name in item + extra <==> f.name in item;
      if f.name in item {
        assert (item + extra)[f.name] == item[f.name];
      }
      DeserializeFieldsSameAttribute(item + extra, item, fs, n);
    }
  }

  /** Items that decode alike up to field `n - 1` and agree on that field's attribute decode alike up to `n`. */
  lemma DeserializeFieldsSameAttribute(a: Item, b: Item, fs: seq<Field>, n: nat)
    requires 0 < n <= |fs|
    requires DeserializeFields(a, fs, n - 1) == DeserializeFields(b, fs, n - 1)
    requires fs[n - 1].name in a <==> fs[n - 1].name in b
    requires fs[n - 1].name in a ==> a[fs[n - 1].name] == b[fs[n - 1].name]
    ensures DeserializeFields(a, fs, n) == DeserializeFields(b, fs, n)
  {
  }
}
