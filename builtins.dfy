/** The Python built-ins the core relies on: ASCII case mapping, `str(int)`,
    `int(str)`, `str.find`, list/str comparison and `list.sort`. */
module Builtins {
  import opened Utils

  predicate IsDigit(c: char) { '0' <= c <= '9' }

  predicate IsUpper(c: char) { 'A' <= c <= 'Z' }

  predicate AllDigits(s: string) { forall i :: 0 <= i < |s| ==> IsDigit(s[i]) }

  function LowerChar(c: char): char { if IsUpper(c) then (c as int + 32) as char else c }

  function UpperChar(c: char): char { if 'a' <= c <= 'z' then (c as int - 32) as char else c }

  /** `str.lower()` restricted to ASCII letters. */
  function Lower(s: string): string { seq(|s|, i requires 0 <= i < |s| => LowerChar(s[i])) }

  /** `str.upper()` restricted to ASCII letters. */
  function Upper(s: string): string { seq(|s|, i requires 0 <= i < |s| => UpperChar(s[i])) }

  // ---------------------------------------------------------------------------
  // Decimal conversion: `f'{n}'` and `int(s)`

  function DigitChar(d: int): char
    requires 0 <= d < 10
  {
    ('0' as int + d) as char
  }

  function NatToString(n: nat): string
    decreases n
  {
    if n < 10 then [DigitChar(n)] else NatToString(n / 10) + [DigitChar(n % 10)]
  }

  /** Decimal text of an integer, with a leading '-' when negative. */
  function IntToString(n: int): string
  {
    if n < 0 then "-" + NatToString(-n) else NatToString(n)
  }

  function DigitsValue(s: string): nat
    requires AllDigits(s)
  {
    if s == [] then 0 else DigitsValue(s[..|s| - 1]) * 10 + (s[|s| - 1] as int - '0' as int)
  }

  /** `int(s)` for an optional sign followed by ASCII digits; anything else
      is the `ValueError` case. */
  function ParseInt(s: string): Option<int>
  {
    if |s| > 0 && (s[0] == '-' || s[0] == '+') then
      var d := s[1..];
      if d != [] && AllDigits(d) then
        Some(if s[0] == '-' then -(DigitsValue(d) as int) else DigitsValue(d) as int)
      else None
    else if s != [] && AllDigits(s) then Some(DigitsValue(s))
    else None
  }

  lemma {:induction false} NatToStringDigits(n: nat)
    ensures NatToString(n) != [] && AllDigits(NatToString(n))
    ensures DigitsValue(NatToString(n)) == n
    decreases n
  {
    if n >= 10 {
      NatToStringDigits(n / 10);
      var s := NatToString(n / 10);
      var t := s + [DigitChar(n % 10)];
      assert t[..|t| - 1] == s;
    }
  }

  /** Reading back the decimal text of an integer gives the integer. */
  lemma ParseIntToString(n: int)
    ensures ParseInt(IntToString(n)) == Some(n)
  {
    if n < 0 {
      NatToStringDigits(-n);
      assert IntToString(n)[1..] == NatToString(-n);
    } else {
      NatToStringDigits(n);
    }
  }

  // ---------------------------------------------------------------------------
  // `str.find(c, start)`

  /** The lowest index at or after `start` holding `c`, or -1. */
  function Find(s: string, c: char, start: nat): (r: int)
    ensures r == -1 || (start <= r < |s| && s[r] == c)
    ensures r != -1 ==> forall k :: start <= k < r ==> s[k] != c
    ensures r == -1 <==> forall k :: start <= k < |s| ==> s[k] != c
    decreases |s| - start
  {
    if start >= |s| then -1 else if s[start] == c then start else Find(s, c, start + 1)
  }

  // ---------------------------------------------------------------------------
  // Comparison of lists of ints and of strings, as Python's `<=` does it:
  // element by element, a proper prefix before the longer sequence.

  predicate IntsLe(a: seq<int>, b: seq<int>)
  {
    if a == [] then true
    else if b == [] then false
    else a[0] < b[0] || (a[0] == b[0] && IntsLe(a[1..], b[1..]))
  }

  /** Code points of a string; Python compares strings by them. */
  function Codes(s: string): seq<int> { seq(|s|, i requires 0 <= i < |s| => s[i] as int) }

  predicate StrLe(a: string, b: string) { IntsLe(Codes(a), Codes(b)) }

  lemma {:induction false} IntsLeTotal(a: seq<int>, b: seq<int>)
    ensures IntsLe(a, b) || IntsLe(b, a)
  {
    if a != [] && b != [] && a[0] == b[0] {
      IntsLeTotal(a[1..], b[1..]);
    }
  }

  lemma {:induction false} IntsLeTrans(a: seq<int>, b: seq<int>, c: seq<int>)
    requires IntsLe(a, b) && IntsLe(b, c)
    ensures IntsLe(a, c)
  {
    if a != [] && b != [] && c != [] && a[0] == b[0] == c[0] {
      IntsLeTrans(a[1..], b[1..], c[1..]);
    }
  }

  lemma {:induction false} IntsLeAntisym(a: seq<int>, b: seq<int>)
    requires IntsLe(a, b) && IntsLe(b, a)
    ensures a == b
  {
    if a != [] && b != [] {
      IntsLeAntisym(a[1..], b[1..]);
      assert a == [a[0]] + a[1..];
      assert b == [b[0]] + b[1..];
    }
  }

  // ---------------------------------------------------------------------------
  // `list.sort(key=...)`: a stable insertion sort under a total preorder.

  ghost predicate TotalPreorder<T(!new)>(le: (T, T) -> bool)
  {
    && (forall a, b :: le(a, b) || le(b, a))
    && (forall a, b, c :: le(a, b) && le(b, c) ==> le(a, c))
  }

  ghost predicate SortedBy<T>(s: seq<T>, le: (T, T) -> bool)
  {
    forall i, j :: 0 <= i < j < |s| ==> le(s[i], s[j])
  }

  function Insert<T>(x: T, s: seq<T>, le: (T, T) -> bool): seq<T>
  {
    if s == [] then [x] else if le(x, s[0]) then [x] + s else [s[0]] + Insert(x, s[1..], le)
  }

  function SortBy<T>(s: seq<T>, le: (T, T) -> bool): seq<T>
  {
    if s == [] then [] else Insert(s[0], SortBy(s[1..], le), le)
  }

  lemma {:induction false} InsertCorrect<T(!new)>(x: T, s: seq<T>, le: (T, T) -> bool)
    requires TotalPreorder(le) && SortedBy(s, le)
    ensures multiset(Insert(x, s, le)) == multiset(s) + multiset{x}
    ensures SortedBy(Insert(x, s, le), le)
  {
    if s != [] && !le(x, s[0]) {
      assert s == [s[0]] + s[1..];
      InsertCorrect(x, s[1..], le);
      var t := Insert(x, s[1..], le);
      forall j | 0 <= j < |t| ensures le(s[0], t[j]) {
        assert t[j] in multiset(t);
        if t[j] != x {
          assert t[j] in multiset(s[1..]);
          var k :| 0 <= k < |s[1..]| && s[1..][k] == t[j];
          assert s[k + 1] == t[j];
        }
      }
    }
  }

  /** The sort is ordered by `le` and is a permutation of its input. */
  lemma {:induction false} SortByCorrect<T(!new)>(s: seq<T>, le: (T, T) -> bool)
    requires TotalPreorder(le)
    ensures SortedBy(SortBy(s, le), le)
    ensures multiset(SortBy(s, le)) == multiset(s)
  {
    if s != [] {
      SortByCorrect(s[1..], le);
      InsertCorrect(s[0], SortBy(s[1..], le), le);
      assert s == [s[0]] + s[1..];
    }
  }

  lemma StrLeTotalPreorder()
    ensures TotalPreorder(StrLe)
  {
    forall a, b ensures StrLe(a, b) || StrLe(b, a) {
      IntsLeTotal(Codes(a), Codes(b));
    }
    forall a, b, c | StrLe(a, b) && StrLe(b, c) ensures StrLe(a, c) {
      IntsLeTrans(Codes(a), Codes(b), Codes(c));
    }
  }

  // ---------------------------------------------------------------------------
  // List comprehensions with a condition, and `discord.utils.get`

  /** The elements satisfying `p`, in order. */
  function Filter<T>(s: seq<T>, p: T -> bool): seq<T>
  {
    if s == [] then [] else Filter(s[..|s| - 1], p) + (if p(s[|s| - 1]) then [s[|s| - 1]] else [])
  }

  lemma {:induction false} FilterMembers<T>(s: seq<T>, p: T -> bool)
    ensures forall x :: x in Filter(s, p) <==> x in s && p(x)
  {
    if s != [] {
      FilterMembers(s[..|s| - 1], p);
      assert s == s[..|s| - 1] + [s[|s| - 1]];
    }
  }

  /** Two conditions that agree on the elements select the same elements. */
  lemma {:induction false} FilterExt<T>(s: seq<T>, p: T -> bool, q: T -> bool)
    requires forall i :: 0 <= i < |s| ==> p(s[i]) == q(s[i])
    ensures Filter(s, p) == Filter(s, q)
  {
    if s != [] {
      FilterExt(s[..|s| - 1], p, q);
    }
  }

  lemma {:induction false} FilterFilter<T>(s: seq<T>, p: T -> bool, q: T -> bool, pq: T -> bool)
    requires forall x :: pq(x) == (p(x) && q(x))
    ensures Filter(Filter(s, p), q) == Filter(s, pq)
  {
    if s != [] {
      var init := s[..|s| - 1];
      var x := s[|s| - 1];
      FilterFilter(init, p, q, pq);
      var f := Filter(init, p);
      if p(x) {
        assert Filter(s, p) == f + [x];
        assert (f + [x])[..|f + [x]| - 1] == f;
        assert Filter(f + [x], q) == Filter(f, q) + (if q(x) then [x] else []);
        assert Filter(s, pq) == Filter(init, pq) + (if q(x) then [x] else []);
      } else {
        assert Filter(s, p) == f + [];
        assert f + [] == f;
        assert Filter(s, pq) == Filter(init, pq) + [];
      }
    }
  }

  lemma {:induction false} FilterConcat<T>(a: seq<T>, b: seq<T>, p: T -> bool)
    ensures Filter(a + b, p) == Filter(a, p) + Filter(b, p)
    decreases |b|
  {
    if b != [] {
      var init := b[..|b| - 1];
      FilterConcat(a, init, p);
      assert (a + b)[..|a + b| - 1] == a + init;
      assert (a + b)[|a + b| - 1] == b[|b| - 1];
    } else {
      assert a + b == a;
    }
  }

  lemma {:induction false} FilterAll<T>(s: seq<T>, p: T -> bool)
    requires forall x :: x in s ==> p(x)
    ensures Filter(s, p) == s
  {
    if s != [] {
      assert forall x :: x in s[..|s| - 1] ==> x in s;
      FilterAll(s[..|s| - 1], p);
    }
  }

  lemma {:induction false} FilterNone<T>(s: seq<T>, p: T -> bool)
    requires forall x :: x in s ==> !p(x)
    ensures Filter(s, p) == []
  {
    if s != [] {
      assert forall x :: x in s[..|s| - 1] ==> x in s;
      FilterNone(s[..|s| - 1], p);
      assert s[|s| - 1] in s;
    }
  }

  /** Filtering out a single rejected element between accepted ones. */
  lemma FilterDropOne<T>(pre: seq<T>, x: T, post: seq<T>, p: T -> bool)
    requires forall y :: y in pre ==> p(y)
    requires !p(x)
    requires forall y :: y in post ==> p(y)
    ensures Filter(pre + [x] + post, p) == pre + post
  {
    var withX := pre + [x];
    assert withX[..|withX| - 1] == pre && withX[|withX| - 1] == x;
    FilterAll(pre, p);
    assert Filter(withX, p) == Filter(pre, p) + [];
    assert Filter(withX, p) == pre;
    FilterConcat(withX, post, p);
    FilterAll(post, p);
    assert Filter(withX + post, p) == pre + post;
  }

  /** One more element of the prefix: the filter gains it exactly when it passes. */
  lemma FilterSnoc<T>(s: seq<T>, i: nat, p: T -> bool)
    requires i < |s|
    ensures Filter(s[..i + 1], p) == Filter(s[..i], p) + (if p(s[i]) then [s[i]] else [])
  {
    assert s[..i + 1][..i] == s[..i];
  }

  lemma FilterHolds<T>(s: seq<T>, p: T -> bool, q: T -> bool)
    requires forall j :: 0 <= j < |s| ==> q(s[j])
    ensures forall y :: y in Filter(s, p) ==> q(y)
  {
    FilterMembers(s, p);
  }

  /** A loop that filters `s` in place, as `Filter(s[..i], keep) + s[i..]`,
      advances by one when it removes `s[i]` with a delete (`other`) that
      every other element survives. */
  lemma FilterDeleteAt<T>(s: seq<T>, i: nat, keep: T -> bool, other: T -> bool)
    requires i < |s| && !keep(s[i]) && !other(s[i])
    requires forall j :: 0 <= j < |s| && j != i ==> other(s[j])
    ensures Filter(Filter(s[..i], keep) + s[i..], other) == Filter(s[..i + 1], keep) + s[i + 1..]
  {
    assert forall j :: 0 <= j < |s[..i]| ==> other(s[..i][j]);
    FilterHolds(s[..i], keep, other);
    forall y | y in s[i + 1..] ensures other(y) {
      var j :| 0 <= j < |s[i + 1..]| && s[i + 1..][j] == y;
      assert s[i + 1 + j] == y;
    }
    assert s[i..] == [s[i]] + s[i + 1..];
    var pre := Filter(s[..i], keep);
    assert pre + s[i..] == pre + [s[i]] + s[i + 1..];
    FilterDropOne(pre, s[i], s[i + 1..], other);
    FilterSnoc(s, i, keep);
    assert pre + [] == pre;
  }

  /** The same loop passing over an element it keeps. */
  lemma FilterSkipAt<T>(s: seq<T>, i: nat, keep: T -> bool)
    requires i < |s| && keep(s[i])
    ensures Filter(s[..i], keep) + s[i..] == Filter(s[..i + 1], keep) + s[i + 1..]
  {
    FilterSnoc(s, i, keep);
    assert s[i..] == [s[i]] + s[i + 1..];
  }

  /** Every key is below `bound`. */
  ghost predicate KeysBelow<T>(s: seq<T>, key: T -> nat, bound: nat)
  {
    forall i :: 0 <= i < |s| ==> key(s[i]) < bound
  }

  /** No two elements share a key. */
  ghost predicate KeysDistinct<T>(s: seq<T>, key: T -> nat)
  {
    forall i, j :: 0 <= i < j < |s| ==> key(s[i]) != key(s[j])
  }

  /** Each element of a filtered sequence is an element of the original. */
  lemma FilterAt<T>(s: seq<T>, p: T -> bool, i: nat)
    requires i < |Filter(s, p)|
    ensures Filter(s, p)[i] in s
  {
    FilterMembers(s, p);
    assert Filter(s, p)[i] in Filter(s, p);
  }

  /** Filtering keeps keys distinct and below a bound. */
  lemma {:induction false} FilterKeys<T>(s: seq<T>, p: T -> bool, key: T -> nat, bound: nat)
    requires KeysBelow(s, key, bound) && KeysDistinct(s, key)
    ensures KeysBelow(Filter(s, p), key, bound) && KeysDistinct(Filter(s, p), key)
  {
    if s != [] {
      var init := s[..|s| - 1];
      var last := s[|s| - 1];
      assert forall i :: 0 <= i < |init| ==> init[i] == s[i];
      FilterKeys(init, p, key, bound);
      var r0 := Filter(init, p);
      var r := Filter(s, p);
      if p(last) {
        assert r == r0 + [last];
        forall i, j | 0 <= i < j < |r| ensures key(r[i]) != key(r[j]) {
          if j == |r0| {
            FilterAt(init, p, i);
            var k :| 0 <= k < |init| && init[k] == r0[i];
            assert key(s[k]) != key(s[|s| - 1]);
          } else {
            assert r[i] == r0[i] && r[j] == r0[j];
          }
        }
        forall i | 0 <= i < |r| ensures key(r[i]) < bound {
          if i < |r0| {
            assert r[i] == r0[i];
          }
        }
      } else {
        assert r == r0 + [];
      }
    }
  }

  /** No element of `s` has key `k`. */
  predicate NoKey<T>(s: seq<T>, key: T -> nat, k: nat)
  {
    s == [] || (key(s[0]) != k && NoKey(s[1..], key, k))
  }

  /** No two elements of `s` share a key, stated recursively. */
  predicate Unique<T>(s: seq<T>, key: T -> nat)
  {
    s == [] || (NoKey(s[1..], key, key(s[0])) && Unique(s[1..], key))
  }

  lemma {:induction false} NoKeyAt<T>(s: seq<T>, key: T -> nat, k: nat)
    ensures NoKey(s, key, k) <==> forall j :: 0 <= j < |s| ==> key(s[j]) != k
  {
    if s != [] {
      NoKeyAt(s[1..], key, k);
      assert forall j :: 1 <= j < |s| ==> s[j] == s[1..][j - 1];
    }
  }

  lemma {:induction false} UniqueAt<T>(s: seq<T>, key: T -> nat)
    ensures Unique(s, key) <==> forall a, b :: 0 <= a < b < |s| ==> key(s[a]) != key(s[b])
  {
    if s != [] {
      UniqueAt(s[1..], key);
      NoKeyAt(s[1..], key, key(s[0]));
      assert forall j :: 1 <= j < |s| ==> s[j] == s[1..][j - 1];
    }
  }

  /** The index of the first element satisfying `p`: `discord.utils.get`. */
  function First<T>(s: seq<T>, p: T -> bool): (r: Option<nat>)
    ensures r.Some? ==> r.value < |s| && p(s[r.value]) && forall j :: 0 <= j < r.value ==> !p(s[j])
    ensures r.None? <==> forall j :: 0 <= j < |s| ==> !p(s[j])
  {
    if s == [] then None
    else if p(s[0]) then Some(0)
    else match First(s[1..], p)
      case None => None
      case Some(i) => Some(i + 1)
  }

  /** Nothing found in a sequence means nothing found in any prefix of it. */
  lemma FirstNonePrefix<T>(s: seq<T>, n: nat, p: T -> bool)
    requires n <= |s| && First(s, p).None?
    ensures First(s[..n], p).None?
  {
    forall j | 0 <= j < n ensures !p(s[..n][j]) {
      assert s[..n][j] == s[j];
    }
  }

  lemma FirstAppend<T>(s: seq<T>, t: seq<T>, p: T -> bool)
    ensures First(s, p).Some? ==> First(s + t, p) == First(s, p)
    ensures First(s, p).None? ==> First(s + t, p) == (match First(t, p) case None => None case Some(i) => Some(|s| + i))
  {
    var r := First(s + t, p);
    if First(s, p).Some? {
      var i := First(s, p).value;
      assert (s + t)[i] == s[i];
    } else if First(t, p).Some? {
      var i := First(t, p).value;
      assert (s + t)[|s| + i] == t[i];
      assert forall j :: 0 <= j < |s| + i ==> (s + t)[j] == if j < |s| then s[j] else t[j - |s|];
    } else {
      assert forall j :: 0 <= j < |s + t| ==> (s + t)[j] == if j < |s| then s[j] else t[j - |s|];
    }
  }

  // ---------------------------------------------------------------------------
  // `sep.join(xs)` and `repr(s)` of a string

  function Join(sep: string, xs: seq<string>): string
  {
    if xs == [] then ""
    else if |xs| == 1 then xs[0]
    else Join(sep, xs[..|xs| - 1]) + sep + xs[|xs| - 1]
  }

  function HexDigit(d: int): char
    requires 0 <= d < 16
  {
    if d < 10 then ('0' as int + d) as char else ('a' as int + d - 10) as char
  }

  /** Characters `repr` writes as themselves, whatever the quote. */
  predicate PlainChar(c: char)
  {
    ' ' <= c <= '~' && c != '\\' && c != '\'' && c != '"'
  }

  /** How `repr` writes one ASCII character inside quotes `q`. */
  function ReprChar(c: char, q: char): string
  {
    if c == q || c == '\\' then ['\\', c]
    else if c == '\n' then "\\n"
    else if c == '\r' then "\\r"
    else if c == '\t' then "\\t"
    else if c < ' ' || c == 127 as char then ['\\', 'x', HexDigit(c as int / 16), HexDigit(c as int % 16)]
    else [c]
  }

  function ReprBody(s: string, q: char): string
  {
    if s == [] then [] else ReprBody(s[..|s| - 1], q) + ReprChar(s[|s| - 1], q)
  }

  /** `repr` of a string: double quotes when it holds a single quote and no
      double quote, single quotes otherwise. */
  function Repr(s: string): (r: string)
    ensures |r| >= 2 && r[0] == r[|r| - 1] && (r[0] == '\'' || r[0] == '"')
  {
    var q := if '\'' in s && '"' !in s then '"' else '\'';
    [q] + ReprBody(s, q) + [q]
  }

  lemma {:induction false} ReprBodyPlain(s: string, q: char)
    requires forall i :: 0 <= i < |s| ==> PlainChar(s[i])
    requires q == '\'' || q == '"'
    ensures ReprBody(s, q) == s
  {
    if s != [] {
      ReprBodyPlain(s[..|s| - 1], q);
      assert s == s[..|s| - 1] + [s[|s| - 1]];
    }
  }

  /** A name of plain printable characters is written in single quotes, unchanged. */
  lemma ReprPlain(s: string)
    requires forall i :: 0 <= i < |s| ==> PlainChar(s[i])
    ensures Repr(s) == "'" + s + "'"
  {
    assert '\'' !in s;
    ReprBodyPlain(s, '\'');
  }
}
