/**
  The single total order on keys that stands in for the culture-sensitive
  string comparison of the kiosk: lexicographic order, comparing characters
  by code point, with a proper prefix ordered before its extensions.
*/
module StringOrder {

  /** The largest UTF-16 code unit, `char.MaxValue`. */
  const MaxChar: char := '\U{FFFF}'

  /** The key given to records whose selected key is missing: `char.MaxValue.ToString()`. */
  const Sentinel: string := [MaxChar]

  /** Strict lexicographic order: `a` sorts before `b`. */
  predicate Less(a: string, b: string)
    decreases |a|
  {
    if |a| == 0 then |b| > 0
    else if |b| == 0 then false
    else if a[0] != b[0] then a[0] < b[0]
    else Less(a[1..], b[1..])
  }

  lemma {:induction false} LessIrreflexive(a: string)
    ensures !Less(a, a)
    decreases |a|
  {
    if |a| > 0 {
      LessIrreflexive(a[1..]);
    }
  }

  lemma {:induction false} LessAsymmetric(a: string, b: string)
    requires Less(a, b)
    ensures !Less(b, a)
    decreases |a|
  {
    if |a| > 0 && |b| > 0 && a[0] == b[0] {
      LessAsymmetric(a[1..], b[1..]);
    }
  }

  lemma {:induction false} LessTransitive(a: string, b: string, c: string)
    requires Less(a, b) && Less(b, c)
    ensures Less(a, c)
    decreases |a|
  {
    if |a| > 0 && a[0] == b[0] && b[0] == c[0] {
      LessTransitive(a[1..], b[1..], c[1..]);
    }
  }

  /** Any two distinct strings are comparable. */
  lemma {:induction false} LessTotal(a: string, b: string)
    ensures a == b || Less(a, b) || Less(b, a)
    decreases |a|
  {
    if |a| > 0 && |b| > 0 && a[0] == b[0] {
      LessTotal(a[1..], b[1..]);
      if a[1..] == b[1..] {
        assert a == [a[0]] + a[1..] && b == [b[0]] + b[1..];
      }
    }
  }

  /**
    A key whose first character is below `char.MaxValue` sorts before every key
    that begins with `char.MaxValue`, in particular before the sentinel: this is
    what makes records with a missing key sort last.
  */
  lemma SentinelPrefixSortsLast(a: string, rest: string)
    requires |a| > 0 && a[0] < MaxChar
    ensures Less(a, [MaxChar] + rest)
  {
  }

  /** Prefixing the same character keeps the order of two strings. */
  lemma {:induction false} LessCons(c: char, a: string, b: string)
    ensures Less([c] + a, [c] + b) <==> Less(a, b)
  {
    assert ([c] + a)[1..] == a;
    assert ([c] + b)[1..] == b;
  }
}
