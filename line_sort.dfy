/** util.linesortkey: the sort key that orders line names such as "14",
    "550" and "14B" the way a reader expects. */
module LineSort {

  import opened Strs

  /** `len([c for c in x if c.isdigit()])`. */
  function DigitCount(x: string): (n: nat)
    ensures n <= |x|
    ensures n == 0 <==> forall i :: 0 <= i < |x| ==> !IsDigit(x[i])
  {
    if |x| == 0 then 0
    else DigitCount(x[..|x| - 1]) + (if IsDigit(x[|x| - 1]) then 1 else 0)
  }

  /** The key: the number of digits first, then the name itself. */
  datatype Key = Key(digits: nat, name: string)

  function LineSortKey(x: string): Key
  {
    Key(DigitCount(x), x)
  }

  /** Python's `<` on strings: code point by code point, a proper prefix
      first. */
  predicate StrLess(a: string, b: string)
  {
    if |a| == 0 then |b| > 0
    else if |b| == 0 then false
    else a[0] < b[0] || (a[0] == b[0] && StrLess(a[1..], b[1..]))
  }

  /** Python's `<` on the key tuples: lexicographic. */
  predicate KeyLess(k1: Key, k2: Key)
  {
    k1.digits < k2.digits || (k1.digits == k2.digits && StrLess(k1.name, k2.name))
  }

  /** A name with fewer digits sorts first, whatever its characters: "550"
      after "14B", "14B" after "9". */
  lemma {:induction false} FewerDigitsFirst(a: string, b: string)
    requires DigitCount(a) < DigitCount(b)
    ensures KeyLess(LineSortKey(a), LineSortKey(b)) && !KeyLess(LineSortKey(b), LineSortKey(a))
  {
  }

  /** Names with equally many digits sort as strings. */
  lemma {:induction false} SameDigitsByName(a: string, b: string)
    requires DigitCount(a) == DigitCount(b)
    ensures KeyLess(LineSortKey(a), LineSortKey(b)) <==> StrLess(a, b)
  {
  }

  lemma {:induction false} StrLessIrreflexive(a: string)
    ensures !StrLess(a, a)
  {
    if |a| > 0 {
      StrLessIrreflexive(a[1..]);
    }
  }

  lemma {:induction false} StrLessTransitive(a: string, b: string, c: string)
    requires StrLess(a, b) && StrLess(b, c)
    ensures StrLess(a, c)
  {
    if |a| > 0 && |b| > 0 && |c| > 0 && a[0] == b[0] && b[0] == c[0] {
      StrLessTransitive(a[1..], b[1..], c[1..]);
    }
  }

  /** Any two different strings are ordered one way. */
  lemma {:induction false} StrLessTotal(a: string, b: string)
    requires a != b
    ensures StrLess(a, b) || StrLess(b, a)
  {
    if |a| > 0 && |b| > 0 && a[0] == b[0] {
      assert a == [a[0]] + a[1..] && b == [b[0]] + b[1..];
      StrLessTotal(a[1..], b[1..]);
    }
  }

  /** The key order is a strict total order on names: `list.sort` with this
      key orders any list of distinct names in exactly one way. */
  lemma {:induction false} KeyOrder(a: string, b: string, c: string)
    ensures !KeyLess(LineSortKey(a), LineSortKey(a))
    ensures KeyLess(LineSortKey(a), LineSortKey(b)) && KeyLess(LineSortKey(b), LineSortKey(c)) ==>
      KeyLess(LineSortKey(a), LineSortKey(c))
    ensures a != b ==> (KeyLess(LineSortKey(a), LineSortKey(b)) <==> !KeyLess(LineSortKey(b), LineSortKey(a)))
  {
    StrLessIrreflexive(a);
    if KeyLess(LineSortKey(a), LineSortKey(b)) && KeyLess(LineSortKey(b), LineSortKey(c)) {
      if DigitCount(a) == DigitCount(b) == DigitCount(c) {
        StrLessTransitive(a, b, c);
      }
    }
    if a != b {
      StrLessTotal(a, b);
      if StrLess(a, b) && StrLess(b, a) {
        StrLessTransitive(a, b, a);
        StrLessIrreflexive(a);
      }
    }
  }
}
