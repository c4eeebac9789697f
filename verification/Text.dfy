/** Strings as Go has them: sequences of bytes (one `char` per byte) under bytewise
    lexicographic order, sorting, and decimal rendering of integers. */
module Text {

  datatype Option<+T> = None | Some(value: T)

  /** The elements of a list, as a set. */
  function Elems<T(==)>(s: seq<T>): (r: set<T>) {
    set x | x in s
  }

  ghost predicate NoDups<T>(s: seq<T>) {
    forall i, j :: 0 <= i < j < |s| ==> s[i] != s[j]
  }

  /** A duplicate-free list drawn from a finite set is no longer than the set. */
  lemma {:induction false} NoDupsBound<T>(s: seq<T>, u: set<T>)
    requires NoDups(s)
    requires forall x :: x in s ==> x in u
    ensures |s| <= |u|
  {
    if s != [] {
      var last := s[|s| - 1];
      NoDupsBound(s[..|s| - 1], u - {last});
    }
  }

  /** The length of a duplicate-free list is the number of its elements. */
  lemma {:induction false} NoDupsCount<T>(s: seq<T>)
    requires NoDups(s)
    ensures |s| == |Elems(s)|
  {
    if s != [] {
      var last := s[|s| - 1];
      NoDupsCount(s[..|s| - 1]);
      assert Elems(s) == Elems(s[..|s| - 1]) + {last};
    }
  }

  /** A subset is no larger, and as large only if equal. */
  lemma {:induction false} SubsetCard<T>(a: set<T>, b: set<T>)
    requires a <= b
    ensures |a| <= |b| && (|a| == |b| ==> a == b)
  {
    if a != {} {
      var x :| x in a;
      SubsetCard(a - {x}, b - {x});
    }
  }

  // ---- order ----

  /** Go's `<` on strings. */
  predicate Less(a: string, b: string) {
    b != [] && (a == [] || a[0] < b[0] || (a[0] == b[0] && Less(a[1..], b[1..])))
  }

  lemma {:induction false} LessIrreflexive(a: string)
    ensures !Less(a, a)
  {
    if a != [] { LessIrreflexive(a[1..]); }
  }

  lemma {:induction false} LessTransitive(a: string, b: string, c: string)
    requires Less(a, b) && Less(b, c)
    ensures Less(a, c)
  {
    if a != [] && a[0] == b[0] && b[0] == c[0] { LessTransitive(a[1..], b[1..], c[1..]); }
  }

  lemma {:induction false} LessTotal(a: string, b: string)
    ensures a == b || Less(a, b) || Less(b, a)
  {
    if a != [] && b != [] && a[0] == b[0] {
      LessTotal(a[1..], b[1..]);
      assert a == [a[0]] + a[1..] && b == [b[0]] + b[1..];
    }
  }

  /** `a <= b` and `b <= c` give `a <= c`, with `x <= y` read as "not y < x". */
  lemma LeqTransitive(a: string, b: string, c: string)
    requires !Less(b, a) && !Less(c, b)
    ensures !Less(c, a)
  {
    if Less(c, a) {
      LessTotal(a, b);
      if Less(a, b) { LessTransitive(c, a, b); }
    }
  }

  ghost predicate Sorted(s: seq<string>) {
    forall i, j :: 0 <= i < j < |s| ==> !Less(s[j], s[i])
  }

  /** Strictly ascending: sorted and free of duplicates. */
  ghost predicate Ascending(s: seq<string>) {
    forall i, j :: 0 <= i < j < |s| ==> Less(s[i], s[j])
  }

  lemma SortedNoDupsAscends(s: seq<string>)
    requires Sorted(s) && NoDups(s)
    ensures Ascending(s)
  {
    forall i, j | 0 <= i < j < |s| ensures Less(s[i], s[j]) { LessTotal(s[i], s[j]); }
  }

  lemma AscendingNoDups(s: seq<string>)
    requires Ascending(s)
    ensures NoDups(s)
  {
    forall i, j | 0 <= i < j < |s| ensures s[i] != s[j] { LessIrreflexive(s[i]); }
  }

  /** An ascending list is determined by its element set, so sorting hides the order in
      which the elements were gathered. */
  lemma {:induction false} AscendingUnique(s: seq<string>, t: seq<string>)
    requires Ascending(s) && Ascending(t)
    requires Elems(s) == Elems(t)
    ensures s == t
  {
    hide Less;
    AscendingNoDups(s);
    AscendingNoDups(t);
    NoDupsCount(s);
    NoDupsCount(t);
    if s != [] {
      var m, n := s[|s| - 1], t[|t| - 1];
      assert m in Elems(s) && n in Elems(t);
      if m != n {
        var i :| 0 <= i < |t| && t[i] == m;
        var j :| 0 <= j < |s| && s[j] == n;
        assert Less(m, n) && Less(n, m);
        LessTransitive(m, n, m);
        LessIrreflexive(m);
        assert false;
      }
      var s', t' := s[..|s| - 1], t[..|t| - 1];
      assert s == s' + [m] && t == t' + [m];
      assert Elems(s') == Elems(s) - {m};
      assert Elems(t') == Elems(t) - {m};
      AscendingUnique(s', t');
    }
  }

  lemma LastIsGreatest(s: seq<string>, x: string)
    requires Sorted(s) && x in s
    ensures !Less(s[|s| - 1], x)
  {
    LessIrreflexive(x);
  }

  lemma SameGreatest(s: seq<string>, t: seq<string>)
    requires Sorted(s) && Sorted(t) && multiset(s) == multiset(t) && s != [] && t != []
    ensures s[|s| - 1] == t[|t| - 1]
  {
    var m, n := s[|s| - 1], t[|t| - 1];
    assert m in multiset(t) && n in multiset(s);
    LastIsGreatest(s, n);
    LastIsGreatest(t, m);
    LessTotal(m, n);
  }

  lemma DropLast<T>(s: seq<T>)
    requires s != []
    ensures multiset(s[..|s| - 1]) == multiset(s) - multiset{s[|s| - 1]}
  {
    assert s == s[..|s| - 1] + [s[|s| - 1]];
  }

  lemma SortedFront(s: seq<string>)
    requires Sorted(s) && s != []
    ensures Sorted(s[..|s| - 1])
  {
    hide Less;
  }

  /** A sorted list is determined by its multiset. */
  lemma {:induction false} SortedUnique(s: seq<string>, t: seq<string>)
    requires Sorted(s) && Sorted(t) && multiset(s) == multiset(t)
    ensures s == t
    decreases |s|
  {
    assert |multiset(s)| == |s| && |multiset(t)| == |t|;
    if s != [] {
      SameGreatest(s, t);
      DropLast(s);
      DropLast(t);
      SortedFront(s);
      SortedFront(t);
      hide Sorted;
      SortedUnique(s[..|s| - 1], t[..|t| - 1]);
      assert s == s[..|s| - 1] + [s[|s| - 1]];
    }
  }

  /** Place `x` in front of the first element that is not below it. */
  function Insert(x: string, s: seq<string>): (r: seq<string>)
    ensures multiset(r) == multiset(s) + multiset{x}
  {
    if s == [] then [x]
    else if Less(s[0], x) then
      assert s == [s[0]] + s[1..];
      [s[0]] + Insert(x, s[1..])
    else [x] + s
  }

  /** `sort.Strings` as a value: the sorted permutation. */
  function Sort(s: seq<string>): (r: seq<string>)
    ensures multiset(r) == multiset(s)
  {
    if s == [] then []
    else
      assert s == [s[0]] + s[1..];
      Insert(s[0], Sort(s[1..]))
  }

  lemma {:induction false} InsertSorted(x: string, s: seq<string>)
    requires Sorted(s)
    ensures Sorted(Insert(x, s))
  {
    hide Less;
    var r := Insert(x, s);
    if s != [] {
      if Less(s[0], x) {
        var t := Insert(x, s[1..]);
        InsertSorted(x, s[1..]);
        forall j | 0 < j < |r| ensures !Less(r[j], r[0]) {
          assert r[j] == t[j - 1] && r[j] in multiset(t);
          assert r[j] in s[1..] || r[j] == x;
          if r[j] == x && Less(x, s[0]) { LessTransitive(x, s[0], x); LessIrreflexive(x); }
        }
      } else {
        forall j | 0 < j < |r| ensures !Less(r[j], r[0]) {
          assert r[j] == s[j - 1];
          if Less(s[j - 1], x) {
            LessTotal(s[0], x);
            if Less(x, s[0]) { LessTransitive(s[j - 1], x, s[0]); }
          }
        }
        forall i, j | 0 < i < j < |r| ensures !Less(r[j], r[i]) { assert r[i] == s[i - 1] && r[j] == s[j - 1]; }
      }
    }
  }

  lemma {:induction false} SortSorts(s: seq<string>)
    ensures Sorted(Sort(s))
    ensures |Sort(s)| == |s| && Elems(Sort(s)) == Elems(s)
  {
    if s != [] {
      SortSorts(s[1..]);
      InsertSorted(s[0], Sort(s[1..]));
    }
    assert |multiset(Sort(s))| == |multiset(s)|;
    forall x ensures x in Sort(s) <==> x in s {
      assert x in Sort(s) <==> x in multiset(Sort(s));
    }
  }

  /** Equal multisets: duplicate-freeness carries over. */
  lemma PermutationNoDups<T>(s: seq<T>, t: seq<T>)
    requires multiset(s) == multiset(t) && NoDups(s)
    ensures NoDups(t)
  {
    forall i, j | 0 <= i < j < |t| ensures t[i] != t[j] {
      if t[i] == t[j] {
        var x := t[i];
        assert t == t[..i] + [x] + t[i + 1..j] + [x] + t[j + 1..];
        assert multiset(t)[x] >= 2;
        NoDupsOnce(s, x);
      }
    }
  }

  lemma {:induction false} NoDupsOnce<T>(s: seq<T>, x: T)
    requires NoDups(s)
    ensures multiset(s)[x] <= 1
  {
    if s != [] {
      var s' := s[..|s| - 1];
      NoDupsOnce(s', x);
      assert s == s' + [s[|s| - 1]];
      if s[|s| - 1] == x { assert x !in s'; assert x !in multiset(s'); }
    }
  }

  /** Sorting a duplicate-free list gives the ascending list of its elements. */
  lemma SortAscends(s: seq<string>)
    requires NoDups(s)
    ensures Ascending(Sort(s)) && Elems(Sort(s)) == Elems(s)
  {
    SortSorts(s);
    PermutationNoDups(s, Sort(s));
    SortedNoDupsAscends(Sort(s));
  }

  // ---- bytes, listed ----

  const DIGITS := "0123456789"
  const LOWER := "abcdefghijklmnopqrstuvwxyz"
  const UPPER := "ABCDEFGHIJKLMNOPQRSTUVWXYZ"

  lemma DigitIff(c: char)
    ensures '0' <= c <= '9' <==> c in DIGITS
  {
    if '0' <= c <= '9' { assert DIGITS[c as int - '0' as int] == c; }
  }

  lemma LowerIff(c: char)
    ensures 'a' <= c <= 'z' <==> c in LOWER
  {
    if 'a' <= c <= 'z' { assert LOWER[c as int - 'a' as int] == c; }
  }

  lemma UpperIff(c: char)
    ensures 'A' <= c <= 'Z' <==> c in UPPER
  {
    if 'A' <= c <= 'Z' { assert UPPER[c as int - 'A' as int] == c; }
  }

  // ---- decimal rendering ----

  predicate IsDigit(c: char) { '0' <= c <= '9' }

  predicate AllDigits(s: string) { forall i :: 0 <= i < |s| ==> IsDigit(s[i]) }

  /** `strconv.Itoa` on a natural number. */
  function Itoa(n: nat): (s: string)
    ensures s != [] && AllDigits(s)
  {
    if n < 10 then [('0' as int + n) as char] else Itoa(n / 10) + Itoa(n % 10)
  }

  /** The number a digit string denotes. */
  function Value(s: string): (n: nat)
    requires AllDigits(s)
  {
    if s == [] then 0 else 10 * Value(s[..|s| - 1]) + (s[|s| - 1] as int - '0' as int)
  }

  /** Reading a rendered number gives the number back. */
  lemma {:induction false} ItoaValue(n: nat)
    ensures Value(Itoa(n)) == n
  {
    if n >= 10 {
      ItoaValue(n / 10);
      var d := Itoa(n % 10);
      assert Itoa(n)[..|Itoa(n)| - 1] == Itoa(n / 10);
    }
  }

  lemma ItoaInjective(m: nat, n: nat)
    ensures Itoa(m) == Itoa(n) <==> m == n
  {
    ItoaValue(m);
    ItoaValue(n);
  }
}
