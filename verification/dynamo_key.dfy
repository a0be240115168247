/**
  `dynamo_key(parts)`: the composite store key, `'#'.join(str(p) for p in parts)`.
 */
module CompositeKey {
  import Decimal
  import Delimited

  /** A key component: an int, a str, or `None` (which `str` renders as "None"). */
  datatype KeyPart = IntPart(n: int) | StrPart(s: string) | NonePart

  /** `str(part)`. */
  function PartString(p: KeyPart): string {
    match p
    case IntPart(n) => Decimal.IntToString(n)
    case StrPart(s) => s
    case NonePart => "None"
  }

  function PartStrings(parts: seq<KeyPart>): (rendered: seq<string>)
    ensures |rendered| == |parts|
    ensures forall i | 0 <= i < |parts| :: rendered[i] == PartString(parts[i])
  {
    if |parts| == 0 then [] else [PartString(parts[0])] + PartStrings(parts[1..])
  }

  /** `dynamo_key`. */
  function DynamoKey(parts: seq<KeyPart>): string {
    Delimited.Join(PartStrings(parts), '#')
  }

  /** Splitting a key on `#` gives the rendered parts back when none of them holds a `#`. */
  lemma DynamoKeySplit(parts: seq<KeyPart>)
    requires |parts| > 0 && forall i | 0 <= i < |parts| :: '#' !in PartString(parts[i])
    ensures Delimited.Split(DynamoKey(parts), '#') == PartStrings(parts)
  {
    Delimited.SplitJoin(PartStrings(parts), '#');
  }

  /** A part whose rendering is non-empty and free of `#`: an int or `None`. */
  predicate IsNumericPart(p: KeyPart) {
    p.IntPart? || p.NonePart?
  }

  /** `dynamo_key([5, 10, 20]) == "5#10#20"`. */
  lemma DynamoKeyExample()
    ensures DynamoKey([IntPart(5), IntPart(10), IntPart(20)]) == "5#10#20"
  {
    assert Decimal.NatToString(10) == "10" by {
      assert Decimal.NatToString(1) == "1";
    }
    assert Decimal.NatToString(20) == "20" by {
      assert Decimal.NatToString(2) == "2";
    }
    assert PartStrings([IntPart(5), IntPart(10), IntPart(20)]) == ["5", "10", "20"];
  }

  lemma PartStringsInjective(a: seq<KeyPart>, b: seq<KeyPart>)
    requires forall i | 0 <= i < |a| :: IsNumericPart(a[i])
    requires forall i | 0 <= i < |b| :: IsNumericPart(b[i])
    requires PartStrings(a) == PartStrings(b)
    ensures a == b
  {
    forall i | 0 <= i < |a|
      ensures a[i] == b[i]
    {
      assert PartString(a[i]) == PartString(b[i]);
      if a[i].IntPart? && b[i].IntPart? {
        Decimal.IntToStringInjective(a[i].n, b[i].n);
      }
    }
  }

  /**
    On keys built from ints (and `None`), `dynamo_key` is injective: no
    rendering is empty or contains `#`.
   */
  lemma DynamoKeyInjective(a: seq<KeyPart>, b: seq<KeyPart>)
    requires forall i | 0 <= i < |a| :: IsNumericPart(a[i])
    requires forall i | 0 <= i < |b| :: IsNumericPart(b[i])
    requires DynamoKey(a) == DynamoKey(b)
    ensures a == b
  {
    var ra, rb := PartStrings(a), PartStrings(b);
    forall i | 0 <= i < |ra| ensures ra[i] != "" && '#' !in ra[i] {
      assert ra[i] == PartString(a[i]);
    }
    forall i | 0 <= i < |rb| ensures rb[i] != "" && '#' !in rb[i] {
      assert rb[i] == PartString(b[i]);
    }
    Delimited.JoinInjective(ra, rb, '#');
    PartStringsInjective(a, b);
  }

  /** Strings that contain `#` make two different keys collide. */
  lemma DynamoKeyStringCollision()
    ensures DynamoKey([StrPart("a#b")]) == DynamoKey([StrPart("a"), StrPart("b")])
  {
    assert PartStrings([StrPart("a"), StrPart("b")]) == ["a", "b"];
  }

  /** A key of ints and `None`s with at least one part renders to a non-empty string. */
  lemma NumericKeyNonEmpty(parts: seq<KeyPart>)
    requires |parts| > 0
    requires forall i | 0 <= i < |parts| :: IsNumericPart(parts[i])
    ensures DynamoKey(parts) != ""
  {
    var rendered := PartStrings(parts);
    forall i | 0 <= i < |rendered| ensures rendered[i] != "" {
      assert rendered[i] == PartString(parts[i]);
    }
    Delimited.JoinEmpty(rendered, '#');
  }
}
