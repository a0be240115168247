/**
  The typed-record data model. A Python dataclass is described by its declared
  fields in declaration order (what `dataclasses.fields` yields); an instance
  maps every declared field name to a value or to `None`.
 */
module Schema {
  import opened Wrappers

  /** The field annotations the codecs understand: bool, int, str, Datetime, a dataclass. */
  datatype FieldType = Bool | Int | Str | Time | Rec(fields: seq<Field>)

  datatype Field = Field(name: string, ty: FieldType)

  /** A Datetime, kept as its ISO 8601 text. */
  datatype Timestamp = Timestamp(iso: string)

  datatype Value =
    | BoolV(b: bool)
    | IntV(i: int)
    | StrV(s: string)
    | TimeV(t: Timestamp)
    | RecV(rec: map<string, Option<Value>>)

  /** A dataclass instance: field name to value, `None` for an absent value. */
  type Record = map<string, Option<Value>>

  /** Names of the first `n` declared fields. */
  function NamesBelow(fs: seq<Field>, n: nat): set<string>
    requires n <= |fs|
  {
    if n == 0 then {} else NamesBelow(fs, n - 1) + {fs[n - 1].name}
  }

  /** Names of all declared fields. */
  function Names(fs: seq<Field>): set<string> {
    NamesBelow(fs, |fs|)
  }

  lemma {:induction false} NameBelow(fs: seq<Field>, n: nat, i: nat)
    requires i < n <= |fs|
    ensures fs[i].name in NamesBelow(fs, n)
    decreases n
  {
    if i < n - 1 {
      NameBelow(fs, n - 1, i);
    }
  }

  /** Every name below `n` belongs to a field below `n`. */
  lemma {:induction false} NameIndex(fs: seq<Field>, n: nat, k: string) returns (i: nat)
    requires n <= |fs| && k in NamesBelow(fs, n)
    ensures i < n && fs[i].name == k
    decreases n
  {
    if fs[n - 1].name == k {
      i := n - 1;
    } else {
      i := NameIndex(fs, n - 1, k);
    }
  }

  predicate DistinctNames(fs: seq<Field>) {
    forall i, j | 0 <= i < j < |fs| :: fs[i].name != fs[j].name
  }

  /** Every dataclass involved declares each field name once, as Python enforces. */
  predicate WellFormed(t: FieldType) {
    match t
    case Rec(fs) => DistinctNames(fs) && forall i | 0 <= i < |fs| :: WellFormed(fs[i].ty)
    case _ => true
  }

  /** `v` is a value of annotation `t`; a record has exactly the declared fields. */
  predicate HasType(v: Value, t: FieldType) {
    match t
    case Bool => v.BoolV?
    case Int => v.IntV?
    case Str => v.StrV?
    case Time => v.TimeV?
    case Rec(fs) =>
      && v.RecV?
      && v.rec.Keys == Names(fs)
      && forall i | 0 <= i < |fs| ::
           && fs[i].name in v.rec
           && (v.rec[fs[i].name].Some? ==> HasType(v.rec[fs[i].name].value, fs[i].ty))
  }

  /** `r` is an instance of the dataclass with fields `fs`. */
  predicate IsRecordOf(r: Record, fs: seq<Field>) {
    HasType(RecV(r), Rec(fs))
  }

  /** A declared field of an instance is present and holds a value of its annotation or `None`. */
  lemma FieldOf(r: Record, fs: seq<Field>, i: nat)
    requires IsRecordOf(r, fs) && i < |fs|
    ensures fs[i].name in r
    ensures r[fs[i].name].Some? ==> HasType(r[fs[i].name].value, fs[i].ty)
  {
  }

  /** Setting a field to `None` or to a value of its annotation keeps the record an instance. */
  lemma UpdateField(r: Record, fs: seq<Field>, i: nat, v: Option<Value>)
    requires IsRecordOf(r, fs) && DistinctNames(fs) && i < |fs|
    requires v.Some? ==> HasType(v.value, fs[i].ty)
    ensures IsRecordOf(r[fs[i].name := v], fs)
  {
    var updated := r[fs[i].name := v];
    NameBelow(fs, |fs|, i);
    forall j | 0 <= j < |fs|
      ensures fs[j].name in updated
      ensures updated[fs[j].name].Some? ==> HasType(updated[fs[j].name].value, fs[j].ty)
    {
      if j != i {
        FieldOf(r, fs, j);
      }
    }
  }
}
