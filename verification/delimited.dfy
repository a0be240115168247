/**
  Python's `sep.join(parts)` and `text.split(sep)` for a one-character
  separator. The store key is `'#'.join(...)` and the callback data is
  `':'.join(...)`, read back with `split(':')`. Neither escapes the separator.
 */
module Delimited {

  /** `sep.join(parts)`; the join of no parts is the empty string. */
  function Join(parts: seq<string>, sep: char): string
    decreases |parts|
  {
    if |parts| == 0 then ""
    else if |parts| == 1 then parts[0]
    else parts[0] + [sep] + Join(parts[1..], sep)
  }

  /** Number of occurrences of `c` in `s`. */
  function Count(s: string, c: char): nat
    decreases |s|
  {
    if |s| == 0 then 0 else (if s[0] == c then 1 else 0) + Count(s[1..], c)
  }

  /**
    `text.split(sep)`: the maximal separator-free pieces between separators,
    so `"a::b"` gives `["a", "", "b"]` and `""` gives `[""]`.
   */
  function Split(text: string, sep: char): (parts: seq<string>)
    ensures |parts| == Count(text, sep) + 1
    ensures forall i | 0 <= i < |parts| :: sep !in parts[i]
    ensures Join(parts, sep) == text
    decreases |text|
  {
    if |text| == 0 then [""]
    else
      var rest := Split(text[1..], sep);
      if text[0] == sep then [""] + rest
      else [[text[0]] + rest[0]] + rest[1..]
  }

  /** A text without the separator splits into itself. */
  lemma {:induction false} SplitNoSeparator(t: string, sep: char)
    requires sep !in t
    ensures Split(t, sep) == [t]
    decreases |t|
  {
    if |t| > 0 {
      assert sep !in t[1..];
      SplitNoSeparator(t[1..], sep);
      assert [t[0]] + t[1..] == t;
    }
  }

  /** Splitting `t + sep + u` yields `t` followed by the pieces of `u`. */
  lemma {:induction false} SplitAfterPiece(t: string, sep: char, u: string)
    requires sep !in t
    ensures Split(t + [sep] + u, sep) == [t] + Split(u, sep)
    decreases |t|
  {
    var text := t + [sep] + u;
    if |t| == 0 {
      assert text[1..] == u;
    } else {
      assert text[1..] == t[1..] + [sep] + u;
      assert sep !in t[1..];
      SplitAfterPiece(t[1..], sep, u);
      assert [t[0]] + t[1..] == t;
    }
  }

  /** `sep.join(parts).split(sep) == parts` when no part contains the separator. */
  lemma {:induction false} SplitJoin(parts: seq<string>, sep: char)
    requires |parts| > 0
    requires forall i | 0 <= i < |parts| :: sep !in parts[i]
    ensures Split(Join(parts, sep), sep) == parts
    decreases |parts|
  {
    if |parts| == 1 {
      SplitNoSeparator(parts[0], sep);
    } else {
      SplitJoin(parts[1..], sep);
      SplitAfterPiece(parts[0], sep, Join(parts[1..], sep));
      assert [parts[0]] + parts[1..] == parts;
    }
  }

  /** Joining non-empty, separator-free parts is injective. */
  lemma JoinInjective(a: seq<string>, b: seq<string>, sep: char)
    requires forall i | 0 <= i < |a| :: a[i] != "" && sep !in a[i]
    requires forall i | 0 <= i < |b| :: b[i] != "" && sep !in b[i]
    requires Join(a, sep) == Join(b, sep)
    ensures a == b
  {
    if |a| == 0 || |b| == 0 {
      JoinEmpty(a, sep);
      JoinEmpty(b, sep);
    } else {
      SplitJoin(a, sep);
      SplitJoin(b, sep);
    }
  }

  /** The join of non-empty parts is empty only when there are no parts. */
  lemma {:induction false} JoinEmpty(parts: seq<string>, sep: char)
    requires forall i | 0 <= i < |parts| :: parts[i] != ""
    ensures Join(parts, sep) == "" <==> |parts| == 0
  {
    if |parts| > 0 {
      assert |parts[0]| > 0;
      if |parts| > 1 {
        assert |Join(parts, sep)| >= |parts[0]|;
      }
    }
  }

  /** Occurrences add up over concatenation. */
  lemma {:induction false} CountConcat(s: string, t: string, c: char)
    ensures Count(s + t, c) == Count(s, c) + Count(t, c)
    decreases |s|
  {
    if |s| > 0 {
      assert (s + t)[1..] == s[1..] + t;
      CountConcat(s[1..], t, c);
    } else {
      assert s + t == t;
    }
  }

  /**
    `sep.join(parts)` holds at least one separator between each two parts,
    and no other when no part holds one.
   */
  lemma {:induction false} JoinCount(parts: seq<string>, sep: char)
    ensures |parts| > 0 ==> Count(Join(parts, sep), sep) >= |parts| - 1
    ensures |parts| > 0 && (forall i | 0 <= i < |parts| :: sep !in parts[i]) ==>
              Count(Join(parts, sep), sep) == |parts| - 1
    decreases |parts|
  {
    if |parts| == 1 {
      if sep !in parts[0] {
        CountAbsent(parts[0], sep);
      }
    } else if |parts| > 1 {
      var rest := Join(parts[1..], sep);
      JoinCount(parts[1..], sep);
      CountConcat(parts[0] + [sep], rest, sep);
      CountConcat(parts[0], [sep], sep);
      assert Count([sep], sep) == 1;
      if forall i | 0 <= i < |parts| :: sep !in parts[i] {
        CountAbsent(parts[0], sep);
        assert forall i | 0 <= i < |parts[1..]| :: sep !in parts[1..][i] by {
          forall i | 0 <= i < |parts[1..]| ensures sep !in parts[1..][i] {
            assert parts[1..][i] == parts[i + 1];
          }
        }
      }
    }
  }

  /** A text without `c` has no occurrences of it. */
  lemma {:induction false} CountAbsent(s: string, c: char)
    requires c !in s
    ensures Count(s, c) == 0
    decreases |s|
  {
    if |s| > 0 {
      assert c !in s[1..];
      CountAbsent(s[1..], c);
    }
  }

  /** Splitting `a + sep + b` yields the pieces of `a` followed by the pieces of `b`. */
  lemma {:induction false} SplitConcat(a: string, sep: char, b: string)
    ensures Split(a + [sep] + b, sep) == Split(a, sep) + Split(b, sep)
    decreases |a|
  {
    var text := a + [sep] + b;
    if |a| == 0 {
      assert text == [sep] + b;
      assert text[1..] == b;
    } else {
      assert text[1..] == a[1..] + [sep] + b;
      SplitConcat(a[1..], sep, b);
    }
  }

  /** Past the first piece, the pieces of `a + sep + b` are those of `a` then those of `b`. */
  lemma SplitConcatTail(a: string, sep: char, b: string)
    ensures Split(a + [sep] + b, sep)[1..] == Split(a, sep)[1..] + Split(b, sep)
  {
    SplitConcat(a, sep, b);
    var pa, pb := Split(a, sep), Split(b, sep);
    assert (pa + pb)[1..] == pa[1..] + pb;
  }

  /** A separator-free text put in front only lengthens the first piece. */
  lemma {:induction false} SplitPrepend(p: string, sep: char, rest: string)
    requires sep !in p
    ensures Split(p + rest, sep)[1..] == Split(rest, sep)[1..]
    decreases |p|
  {
    if |p| > 0 {
      assert (p + rest)[1..] == p[1..] + rest;
      assert sep !in p[1..];
      SplitPrepend(p[1..], sep, rest);
    } else {
      assert p + rest == rest;
    }
  }

  /** `sep.join(parts)` starts with the first part. */
  lemma JoinStartsWith(parts: seq<string>, sep: char)
    requires |parts| > 0
    ensures parts[0] <= Join(parts, sep)
  {
    if |parts| > 1 {
      JoinCons(parts[0], parts[1..], sep);
      assert parts == [parts[0]] + parts[1..];
    }
  }

  /** Joining unfolds one part at a time. */
  lemma JoinCons(head: string, rest: seq<string>, sep: char)
    requires |rest| > 0
    ensures Join([head] + rest, sep) == head + [sep] + Join(rest, sep)
  {
    assert ([head] + rest)[1..] == rest;
  }
}
