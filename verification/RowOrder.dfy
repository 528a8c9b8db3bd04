/** The order in which the in-memory repository lists its rows: a stable sort by a
    total order on the rows. */
module RowOrder {
  import opened Common

  ghost predicate Total<T(!new)>(le: (T, T) -> bool) {
    forall a, b :: le(a, b) || le(b, a)
  }

  ghost predicate Transitive<T(!new)>(le: (T, T) -> bool) {
    forall a, b, c :: le(a, b) && le(b, c) ==> le(a, c)
  }

  ghost predicate Sorted<T>(s: seq<T>, le: (T, T) -> bool) {
    forall i, j :: 0 <= i < j < |s| ==> le(s[i], s[j])
  }

  /** Puts `x` behind everything it does not have to precede. */
  function Insert<T>(s: seq<T>, x: T, le: (T, T) -> bool): seq<T> {
    if s == [] || le(s[|s| - 1], x) then s + [x]
    else Insert(s[..|s| - 1], x, le) + [s[|s| - 1]]
  }

  function SortBy<T>(s: seq<T>, le: (T, T) -> bool): seq<T> {
    if s == [] then [] else Insert(SortBy(s[..|s| - 1], le), s[|s| - 1], le)
  }

  lemma {:induction false} InsertPermutes<T>(s: seq<T>, x: T, le: (T, T) -> bool)
    ensures multiset(Insert(s, x, le)) == multiset(s) + multiset{x}
  {
    if s != [] && !le(s[|s| - 1], x) {
      InsertPermutes(s[..|s| - 1], x, le);
      assert s == s[..|s| - 1] + [s[|s| - 1]];
    }
  }

  lemma {:induction false} InsertSorts<T(!new)>(s: seq<T>, x: T, le: (T, T) -> bool)
    requires Total(le) && Transitive(le) && Sorted(s, le)
    ensures Sorted(Insert(s, x, le), le)
  {
    if s != [] && !le(s[|s| - 1], x) {
      var init, y := s[..|s| - 1], s[|s| - 1];
      InsertSorts(init, x, le);
      InsertPermutes(init, x, le);
      var r := Insert(init, x, le);
      forall i | 0 <= i < |r| ensures le(r[i], y) {
        assert r[i] in multiset(r);
        assert r[i] in init || r[i] == x;
      }
    }
  }

  /** Nothing is lost, nothing repeated, and the rows are in order. */
  lemma {:induction false} SortByMeaning<T(!new)>(s: seq<T>, le: (T, T) -> bool)
    requires Total(le) && Transitive(le)
    ensures Sorted(SortBy(s, le), le) && multiset(SortBy(s, le)) == multiset(s)
    ensures |SortBy(s, le)| == |s|
  {
    if s != [] {
      var init, x := s[..|s| - 1], s[|s| - 1];
      SortByMeaning(init, le);
      InsertSorts(SortBy(init, le), x, le);
      InsertPermutes(SortBy(init, le), x, le);
      assert s == init + [x];
    }
    assert |multiset(SortBy(s, le))| == |multiset(s)|;
  }

  /** The rows the order cannot tell from `x`. */
  function Ties<T>(s: seq<T>, x: T, le: (T, T) -> bool): seq<T> {
    if s == [] then []
    else
      var y := s[|s| - 1];
      Ties(s[..|s| - 1], x, le) + (if le(x, y) && le(y, x) then [y] else [])
  }

  lemma {:induction false} TiesSnoc<T>(s: seq<T>, y: T, x: T, le: (T, T) -> bool)
    ensures Ties(s + [y], x, le) == Ties(s, x, le) + (if le(x, y) && le(y, x) then [y] else [])
  {
    assert (s + [y])[..|s|] == s;
  }

  lemma {:induction false} InsertKeepsTies<T(!new)>(s: seq<T>, z: T, x: T, le: (T, T) -> bool)
    requires Transitive(le)
    ensures Ties(Insert(s, z, le), x, le) == Ties(s + [z], x, le)
  {
    if s != [] && !le(s[|s| - 1], z) {
      var init, y := s[..|s| - 1], s[|s| - 1];
      InsertKeepsTies(init, z, x, le);
      TiesSnoc(Insert(init, z, le), y, x, le);
      TiesSnoc(init, z, x, le);
      TiesSnoc(s, z, x, le);
    }
  }

  /** The sort is stable: rows that tie keep their stored order. */
  lemma {:induction false} SortByIsStable<T(!new)>(s: seq<T>, x: T, le: (T, T) -> bool)
    requires Transitive(le)
    ensures Ties(SortBy(s, le), x, le) == Ties(s, x, le)
  {
    if s != [] {
      var init, z := s[..|s| - 1], s[|s| - 1];
      SortByIsStable(init, x, le);
      InsertKeepsTies(SortBy(init, le), z, x, le);
      TiesSnoc(SortBy(init, le), z, x, le);
    }
  }

  // ---- text ----

  /** The order of two texts, by their first difference. */
  predicate TextLe(a: string, b: string) {
    a == [] || (b != [] && (a[0] < b[0] || (a[0] == b[0] && TextLe(a[1..], b[1..]))))
  }

  lemma {:induction false} TextLeTotal(a: string, b: string)
    ensures TextLe(a, b) || TextLe(b, a)
    ensures TextLe(a, b) && TextLe(b, a) ==> a == b
  {
    if a != [] && b != [] && a[0] == b[0] {
      TextLeTotal(a[1..], b[1..]);
      assert a == [a[0]] + a[1..] && b == [b[0]] + b[1..];
    }
  }

  lemma {:induction false} TextLeTransitive(a: string, b: string, c: string)
    requires TextLe(a, b) && TextLe(b, c)
    ensures TextLe(a, c)
  {
    if a != [] && a[0] == b[0] == c[0] {
      TextLeTransitive(a[1..], b[1..], c[1..]);
    }
  }

  /** Spelled out: a beginning of the other text, or smaller at the first difference. */
  ghost predicate Precedes(a: string, b: string) {
    a <= b || exists p :: DiffersAt(a, b, p) && a[p] < b[p]
  }

  ghost predicate DiffersAt(a: string, b: string, p: int) {
    0 <= p < |a| && p < |b| && a[..p] == b[..p] && a[p] != b[p]
  }

  lemma {:induction false} DiffersLater(a: string, b: string, p: int)
    requires a != [] && b != [] && a[0] == b[0]
    ensures DiffersAt(a, b, p + 1) && p >= 0 <==> DiffersAt(a[1..], b[1..], p)
  {
    if DiffersAt(a[1..], b[1..], p) {
      assert a[..p + 1] == [a[0]] + a[1..][..p] && b[..p + 1] == [b[0]] + b[1..][..p];
    }
    if DiffersAt(a, b, p + 1) && p >= 0 {
      assert a[1..][..p] == a[..p + 1][1..] && b[1..][..p] == b[..p + 1][1..];
    }
  }

  lemma {:induction false} TextLeMeaning(a: string, b: string)
    ensures TextLe(a, b) <==> Precedes(a, b)
  {
    if a != [] && b != [] {
      if a[0] == b[0] {
        TextLeMeaning(a[1..], b[1..]);
        assert a == [a[0]] + a[1..] && b == [b[0]] + b[1..];
        assert a <= b <==> a[1..] <= b[1..];
        if p :| DiffersAt(a[1..], b[1..], p) && a[1..][p] < b[1..][p] {
          DiffersLater(a, b, p);
          assert a[p + 1] < b[p + 1];
        }
        if p :| DiffersAt(a, b, p) && a[p] < b[p] {
          assert p > 0;
          DiffersLater(a, b, p - 1);
          assert a[1..][p - 1] < b[1..][p - 1];
        }
      } else {
        assert DiffersAt(a, b, 0);
        if p :| DiffersAt(a, b, p) && a[p] < b[p] {
          assert p > 0 ==> a[..p][0] == b[..p][0];
        }
      }
    }
  }
}
