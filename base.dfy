/** Option and Result, and the Python exceptions the modelled code can raise. */
module Outcomes {

  datatype Option<+T> = None | Some(value: T)

  /** The exception classes that the modelled functions raise on bad input. */
  datatype Error = IndexError | KeyError | TypeError | ValueError | ZeroDivisionError

  /** The outcome of a call that either returns normally or raises. */
  datatype Result<+T> = Ok(value: T) | Err(error: Error)
}

/** Sequence helpers standing in for Python list operations. */
module Seqs {

  function Last<T>(s: seq<T>): T
    requires |s| > 0
  {
    s[|s| - 1]
  }

  /** `s[::-1]` */
  function Reverse<T>(s: seq<T>): (r: seq<T>)
    ensures |r| == |s|
    ensures forall i :: 0 <= i < |s| ==> r[i] == s[|s| - 1 - i]
  {
    seq(|s|, i requires 0 <= i < |s| => s[|s| - 1 - i])
  }

  lemma {:induction false} ReverseEnds<T>(s: seq<T>)
    requires |s| > 0
    ensures Reverse(s)[0] == Last(s) && Last(Reverse(s)) == s[0]
  {
  }

  /** `s.index(x)`: the position of the first occurrence of `x`. */
  function IndexOf<T(==)>(s: seq<T>, x: T): (i: nat)
    requires x in s
    ensures i < |s| && s[i] == x
    ensures forall j :: 0 <= j < i ==> s[j] != x
  {
    if s[0] == x then 0 else 1 + IndexOf(s[1..], x)
  }

  /** A prefix of a prefix is a prefix. */
  lemma {:induction false} PrefixTransitive<T>(a: seq<T>, b: seq<T>, c: seq<T>)
    requires |a| <= |b| <= |c| && b[..|a|] == a && c[..|b|] == b
    ensures c[..|a|] == a
  {
    assert c[..|a|] == c[..|b|][..|a|];
  }

  /** A prefix of `c` that is `a + t` leaves `a` as a prefix of `c`. */
  lemma {:induction false} PrefixOfAppend<T>(a: seq<T>, t: seq<T>, c: seq<T>)
    requires |a + t| <= |c| && c[..|a + t|] == a + t
    ensures |a| <= |c| && c[..|a|] == a
  {
    assert c[..|a|] == c[..|a + t|][..|a|];
  }

  /** Total number of elements of a list of lists. */
  function TotalLength<T>(ss: seq<seq<T>>): nat
  {
    if |ss| == 0 then 0 else TotalLength(ss[..|ss| - 1]) + |Last(ss)|
  }

  /** The total length of the first `k` lists grows by the length of list `k - 1`. */
  lemma {:induction false} TotalLengthPrefix<T>(ss: seq<seq<T>>, k: nat)
    requires 1 <= k <= |ss|
    ensures TotalLength(ss[..k]) == TotalLength(ss[..k - 1]) + |ss[k - 1]|
    ensures k == 1 ==> TotalLength(ss[..k]) == |ss[0]|
  {
    assert ss[..k][..k - 1] == ss[..k - 1];
    if k == 1 {
      assert ss[..0] == [];
    }
  }

  function Sum(s: seq<int>): int
  {
    if |s| == 0 then 0 else Sum(s[..|s| - 1]) + Last(s)
  }

  /** Number of 1 entries in a 0/1 list. */
  lemma {:induction false} SumOfFlags(s: seq<int>)
    requires forall i :: 0 <= i < |s| ==> s[i] == 0 || s[i] == 1
    ensures 0 <= Sum(s) <= |s|
  {
    if |s| > 0 {
      SumOfFlags(s[..|s| - 1]);
    }
  }

  /** A list of ones sums to its length. */
  lemma {:induction false} SumOfOnes(s: seq<int>)
    requires forall i :: 0 <= i < |s| ==> s[i] == 1
    ensures Sum(s) == |s|
  {
    if |s| > 0 {
      SumOfOnes(s[..|s| - 1]);
    }
  }

  predicate Ascending(s: seq<int>)
  {
    forall i, j :: 0 <= i < j < |s| ==> s[i] <= s[j]
  }

  function Insert(x: int, s: seq<int>): (r: seq<int>)
    requires Ascending(s)
    ensures Ascending(r)
    ensures multiset(r) == multiset(s) + multiset{x}
  {
    if |s| == 0 then [x]
    else if x <= s[0] then [x] + s
    else
      var t := Insert(x, s[1..]);
      assert s == [s[0]] + s[1..];
      ConsAscending(s[0], t, s[1..], x);
      [s[0]] + t
  }

  /** Putting a lower bound of `rest` and of `x` in front of an ascending
      permutation of `rest` plus `x` keeps it ascending. */
  lemma {:induction false} ConsAscending(h: int, t: seq<int>, rest: seq<int>, x: int)
    requires Ascending(t) && Ascending([h] + rest) && h <= x
    requires multiset(t) == multiset(rest) + multiset{x}
    ensures Ascending([h] + t)
  {
    forall j | 0 <= j < |t|
      ensures h <= t[j]
    {
      assert t[j] in multiset(t);
      if t[j] != x {
        assert t[j] in multiset(rest);
        var k :| 0 <= k < |rest| && rest[k] == t[j];
        assert ([h] + rest)[0] == h && ([h] + rest)[k + 1] == rest[k];
      }
    }
  }

  /** `sorted(s)` on integers: the ascending permutation of `s`. */
  function SortAscending(s: seq<int>): (r: seq<int>)
    ensures Ascending(r)
    ensures multiset(r) == multiset(s)
  {
    if |s| == 0 then []
    else
      assert s == s[..|s| - 1] + [Last(s)];
      Insert(Last(s), SortAscending(s[..|s| - 1]))
  }
}

/** String helpers standing in for Python str operations. */
module Strs {

  import Seqs

  /** `sep.join(parts)` */
  function Join(parts: seq<string>, sep: string): string
  {
    if |parts| == 0 then ""
    else if |parts| == 1 then parts[0]
    else parts[0] + sep + Join(parts[1..], sep)
  }

  /** `s.split(c)` for a one-character separator: always at least one field. */
  function Split(s: string, c: char): (r: seq<string>)
    ensures |r| > 0
  {
    if |s| == 0 then [""]
    else
      var rest := Split(s[1..], c);
      if s[0] == c then [""] + rest
      else [[s[0]] + rest[0]] + rest[1..]
  }

  /** Joining the fields of a split with the separator gives back the string. */
  lemma {:induction false} JoinSplit(s: string, c: char)
    ensures Join(Split(s, c), [c]) == s
  {
    if |s| > 0 {
      var rest := Split(s[1..], c);
      JoinSplit(s[1..], c);
      if s[0] == c {
        assert Split(s, c) == [""] + rest;
        assert Join(Split(s, c), [c]) == "" + [c] + Join(rest, [c]);
        assert s == [s[0]] + s[1..];
      } else {
        JoinConsFirst(s[0], rest, [c]);
        assert s == [s[0]] + s[1..];
      }
    }
  }

  /** Prepending a character to the first part prepends it to the join. */
  lemma {:induction false} JoinConsFirst(ch: char, parts: seq<string>, sep: string)
    requires |parts| > 0
    ensures Join([[ch] + parts[0]] + parts[1..], sep) == [ch] + Join(parts, sep)
  {
    var p := [[ch] + parts[0]] + parts[1..];
    assert p[1..] == parts[1..];
  }

  /** `s.count(c)` for one character. */
  function CountChar(s: string, c: char): nat
  {
    if |s| == 0 then 0 else CountChar(s[..|s| - 1], c) + (if s[|s| - 1] == c then 1 else 0)
  }

  lemma {:induction false} CountCharConcat(a: string, b: string, c: char)
    ensures CountChar(a + b, c) == CountChar(a, c) + CountChar(b, c)
  {
    if |b| > 0 {
      CountCharConcat(a, b[..|b| - 1], c);
      assert (a + b)[..|a + b| - 1] == a + b[..|b| - 1];
    } else {
      assert a + b == a;
    }
  }

  /** No field of a split holds the separator. */
  lemma {:induction false} SplitFieldsFree(s: string, c: char)
    ensures forall k :: 0 <= k < |Split(s, c)| ==> CountChar(Split(s, c)[k], c) == 0
  {
    if |s| > 0 {
      SplitFieldsFree(s[1..], c);
      var rest := Split(s[1..], c);
      if s[0] != c {
        CountCharConcat([s[0]], rest[0], c);
        assert CountChar([s[0]], c) == 0 by {
          assert [s[0]][..0] == [];
        }
      }
    }
  }

  /** A split has one field more than the string has separators. */
  lemma {:induction false} SplitCount(s: string, c: char)
    ensures |Split(s, c)| == CountChar(s, c) + 1
  {
    if |s| > 0 {
      SplitCount(s[1..], c);
      assert s == [s[0]] + s[1..];
      CountCharConcat([s[0]], s[1..], c);
      assert [s[0]][..0] == [];
    }
  }

  /** A separator-free start stays in the first field. */
  lemma {:induction false} SplitFreePrefix(a: string, rest: string, c: char)
    requires CountChar(a, c) == 0
    ensures Split(a + rest, c)[0] == a + Split(rest, c)[0]
  {
    if |a| > 0 {
      assert CountChar(a, c) == CountChar([a[0]], c) + CountChar(a[1..], c) by {
        assert a == [a[0]] + a[1..];
        CountCharConcat([a[0]], a[1..], c);
      }
      assert [a[0]][..0] == [];
      SplitFreePrefix(a[1..], rest, c);
      assert (a + rest)[1..] == a[1..] + rest;
    } else {
      assert a + rest == rest;
    }
  }

  /** Python's `str.isspace` on the ASCII range. */
  predicate IsSpace(ch: char)
  {
    ch == ' ' || (9 <= ch as int <= 13) || (28 <= ch as int <= 31)
  }

  /** Python's `str.isdigit` on the ASCII range. */
  predicate IsDigit(ch: char)
  {
    '0' <= ch <= '9'
  }

  function StripLeft(s: string): (r: string)
    ensures |r| <= |s| && r == s[|s| - |r|..]
    ensures |r| > 0 ==> !IsSpace(r[0])
    ensures forall i :: 0 <= i < |s| - |r| ==> IsSpace(s[i])
  {
    if |s| > 0 && IsSpace(s[0]) then StripLeft(s[1..]) else s
  }

  function StripRight(s: string): (r: string)
    ensures |r| <= |s| && r == s[..|r|]
    ensures |r| > 0 ==> !IsSpace(Seqs.Last(r))
    ensures forall i :: |r| <= i < |s| ==> IsSpace(s[i])
  {
    if |s| > 0 && IsSpace(s[|s| - 1]) then StripRight(s[..|s| - 1]) else s
  }

  /** `r` is the slice of `s` at `a`, with only whitespace around it. */
  predicate SpaceAround(s: string, r: string, a: nat)
  {
    && a + |r| <= |s| && r == s[a..a + |r|]
    && (forall i :: 0 <= i < a ==> IsSpace(s[i]))
    && (forall i :: a + |r| <= i < |s| ==> IsSpace(s[i]))
  }

  /** `s.strip()`: `s` without leading and trailing whitespace. The result
      is a slice of `s` with only whitespace before and after it. */
  function Strip(s: string): (r: string)
    ensures |r| > 0 ==> !IsSpace(r[0]) && !IsSpace(Seqs.Last(r))
    ensures exists a :: SpaceAround(s, r, a)
  {
    var l := StripLeft(s);
    var r := StripRight(l);
    var a := |s| - |l|;
    forall i | a + |r| <= i < |s|
      ensures IsSpace(s[i])
    {
      assert s[i] == l[i - a];
    }
    assert SpaceAround(s, r, a);
    r
  }

  function DigitChar(d: nat): (ch: char)
    requires d < 10
    ensures IsDigit(ch)
  {
    ('0' as int + d) as char
  }

  /** Every character of `s` is a decimal digit. */
  predicate Digits(s: string)
  {
    forall i :: 0 <= i < |s| ==> IsDigit(s[i])
  }

  /** Decimal digits of a natural number, as Python's `str` writes them. */
  function NatToStr(n: nat): (r: string)
    ensures |r| > 0 && Digits(r)
    decreases n
  {
    if n < 10 then [DigitChar(n)] else NatToStr(n / 10) + [DigitChar(n % 10)]
  }

  /** `str(i)` for an integer. */
  function IntToStr(i: int): string
  {
    if i < 0 then "-" + NatToStr(-i) else NatToStr(i)
  }

  function DigitValue(ch: char): nat
    requires IsDigit(ch)
  {
    ch as int - '0' as int
  }

  /** `int(s)` for a string of decimal digits. */
  function ParseNat(s: string): nat
    requires Digits(s)
  {
    if |s| == 0 then 0 else 10 * ParseNat(s[..|s| - 1]) + DigitValue(s[|s| - 1])
  }

  /** `int(s)` for an optionally negative decimal. */
  function ParseInt(s: string): int
  {
    if |s| > 0 && s[0] == '-' && Digits(s[1..]) then -(ParseNat(s[1..]) as int)
    else if Digits(s) then ParseNat(s)
    else 0
  }

  lemma {:induction false} ParseNatToStr(n: nat)
    ensures ParseNat(NatToStr(n)) == n
    decreases n
  {
    if n >= 10 {
      ParseNatToStr(n / 10);
      var s := NatToStr(n);
      assert s[..|s| - 1] == NatToStr(n / 10);
    }
  }

  /** A minus sign followed by digits reads as the negated number. */
  lemma {:induction false} ParseNegative(t: string)
    requires Digits(t)
    ensures ParseInt("-" + t) == -(ParseNat(t) as int)
  {
    assert ("-" + t)[1..] == t;
  }

  /** A string of digits reads as a natural number. */
  lemma {:induction false} ParseDigits(t: string)
    requires Digits(t)
    ensures ParseInt(t) == ParseNat(t) as int
  {
    if |t| > 0 {
      assert IsDigit(t[0]);
    }
  }

  /** `int(str(i)) == i`: the decimal text of an integer reads back as that integer. */
  lemma {:induction false} ParseIntToStr(i: int)
    ensures ParseInt(IntToStr(i)) == i
  {
    var s := IntToStr(i);
    if i < 0 {
      var t := NatToStr(-i);
      assert s == "-" + t;
      ParseNatToStr(-i);
      ParseNegative(t);
    } else {
      var t := NatToStr(i);
      assert s == t;
      ParseNatToStr(i);
      ParseDigits(t);
    }
  }
}
