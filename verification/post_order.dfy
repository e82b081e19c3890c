/** The ordering step of `transform`: `Array.prototype.sort` with the
    comparator `(a, b) => b.date.time - a.date.time`. Since ES2019 that sort
    must be stable, so its result is fully determined: records newest first,
    records with the same time in their input order. It is modelled as an
    insertion sort, and DatedAtDetermines shows that any other stable sort
    gives the same sequence. */
module PostOrder {
  import opened Posts

  /** A post whose time value is not NaN; only such posts compare consistently. */
  predicate Timed(p: Post) {
    p.date.time.Ms?
  }

  predicate AllTimed(s: seq<Post>) {
    forall i :: 0 <= i < |s| ==> Timed(s[i])
  }

  function TimeOf(p: Post): int
    requires Timed(p)
  {
    p.date.time.ms
  }

  /** The source's comparator. A JavaScript subtraction of two time values
      may round, but never changes sign or zeroness, and the sort reads only
      the sign, so the exact integer difference stands for it. A negative
      result puts `a` ahead of `b`; a zero result keeps input order, and
      `Insert`'s `p` always comes first in the input. */
  function Compare(a: Post, b: Post): int
    requires Timed(a) && Timed(b)
  {
    TimeOf(b) - TimeOf(a)
  }

  /** No record is newer than one ahead of it. */
  predicate NewestFirst(s: seq<Post>)
    requires AllTimed(s)
  {
    forall i, j :: 0 <= i < j < |s| ==> TimeOf(s[i]) >= TimeOf(s[j])
  }

  /** The records of `s` whose time is exactly `k`, in their order in `s`. */
  function DatedAt(s: seq<Post>, k: int): seq<Post>
    requires AllTimed(s)
    decreases |s|
  {
    if s == [] then []
    else (if TimeOf(s[0]) == k then [s[0]] else []) + DatedAt(s[1..], k)
  }

  /** Place `p` ahead of the first record it compares at-or-before, that is
      behind every strictly newer record. */
  function Insert(p: Post, s: seq<Post>): (r: seq<Post>)
    requires Timed(p) && AllTimed(s)
    ensures AllTimed(r)
    ensures multiset(r) == multiset(s) + multiset{p}
    decreases |s|
  {
    if s == [] || Compare(p, s[0]) <= 0 then [p] + s
    else
      assert s == [s[0]] + s[1..];
      [s[0]] + Insert(p, s[1..])
  }

  /** Every record of `s` is no newer than `top`. */
  predicate Below(top: int, s: seq<Post>)
    requires AllTimed(s)
  {
    forall i :: 0 <= i < |s| ==> TimeOf(s[i]) <= top
  }

  /** Inserting into a newest-first sequence keeps it newest first, and keeps
      every record under any bound that `p` and `s` were under. */
  lemma {:induction false} InsertNewestFirst(p: Post, s: seq<Post>, top: int)
    requires Timed(p) && AllTimed(s)
    requires NewestFirst(s)
    ensures NewestFirst(Insert(p, s))
    ensures TimeOf(p) <= top && Below(top, s) ==> Below(top, Insert(p, s))
    decreases |s|
  {
    if s != [] && Compare(p, s[0]) > 0 {
      var rest := Insert(p, s[1..]);
      InsertNewestFirst(p, s[1..], TimeOf(s[0]));
      InsertNewestFirst(p, s[1..], top);
      assert Below(TimeOf(s[0]), rest);
    }
  }

  /** Stable insertion sort, newest first. */
  function Sort(s: seq<Post>): (r: seq<Post>)
    requires AllTimed(s)
    ensures AllTimed(r)
    ensures multiset(r) == multiset(s)
    ensures NewestFirst(r)
    decreases |s|
  {
    if s == [] then []
    else
      assert s == [s[0]] + s[1..];
      var rest := Sort(s[1..]);
      InsertNewestFirst(s[0], rest, TimeOf(s[0]));
      Insert(s[0], rest)
  }

  /** Filtering a sequence with a record in front. */
  lemma DatedAtCons(p: Post, s: seq<Post>, k: int)
    requires Timed(p) && AllTimed(s)
    ensures AllTimed([p] + s)
    ensures DatedAt([p] + s, k) == (if TimeOf(p) == k then [p] else []) + DatedAt(s, k)
  {
    assert ([p] + s)[1..] == s;
  }

  /** Inserting `p` changes no time group other than `p`'s own, and in that
      group `p` comes ahead of every record already there. */
  lemma {:induction false} InsertDatedAt(p: Post, s: seq<Post>, k: int)
    requires Timed(p) && AllTimed(s)
    ensures AllTimed([p] + s)
    ensures DatedAt(Insert(p, s), k) == DatedAt([p] + s, k)
    decreases |s|
  {
    DatedAtCons(p, s, k);
    if s != [] && Compare(p, s[0]) > 0 {
      var rest := Insert(p, s[1..]);
      InsertDatedAt(p, s[1..], k);
      DatedAtCons(s[0], rest, k);
      DatedAtCons(p, s[1..], k);
      DatedAtCons(s[0], s[1..], k);
      assert [s[0]] + s[1..] == s;
    }
  }

  /** Stability: every group of equally-dated records keeps its input order. */
  lemma {:induction false} SortDatedAt(s: seq<Post>, k: int)
    requires AllTimed(s)
    ensures DatedAt(Sort(s), k) == DatedAt(s, k)
    decreases |s|
  {
    if s != [] {
      SortDatedAt(s[1..], k);
      InsertDatedAt(s[0], Sort(s[1..]), k);
      DatedAtCons(s[0], Sort(s[1..]), k);
      DatedAtCons(s[0], s[1..], k);
      assert [s[0]] + s[1..] == s;
    }
  }

  /** A time group is non-empty exactly when some record has that time. */
  lemma {:induction false} DatedAtNonEmpty(s: seq<Post>, k: int)
    requires AllTimed(s)
    ensures DatedAt(s, k) != [] <==> exists i :: 0 <= i < |s| && TimeOf(s[i]) == k
    decreases |s|
  {
    if s != [] {
      DatedAtNonEmpty(s[1..], k);
      if exists i :: 0 <= i < |s| && TimeOf(s[i]) == k {
        var i :| 0 <= i < |s| && TimeOf(s[i]) == k;
        if i > 0 {
          assert TimeOf(s[1..][i - 1]) == k;
        }
      }
      if exists i :: 0 <= i < |s[1..]| && TimeOf(s[1..][i]) == k {
        var i :| 0 <= i < |s[1..]| && TimeOf(s[1..][i]) == k;
        assert TimeOf(s[i + 1]) == k;
      }
    }
  }

  /** A newest-first sequence is determined by its time groups: two of them
      whose groups agree are equal. Together with SortDatedAt this says that
      every stable newest-first sort of the same input gives Sort's result. */
  lemma {:induction false} DatedAtDetermines(a: seq<Post>, b: seq<Post>)
    requires AllTimed(a) && AllTimed(b)
    requires NewestFirst(a) && NewestFirst(b)
    requires forall k :: DatedAt(a, k) == DatedAt(b, k)
    ensures a == b
    decreases |a| + |b|
  {
    if a == [] || b == [] {
      if a != [] {
        DatedAtNonEmpty(a, TimeOf(a[0]));
      } else if b != [] {
        DatedAtNonEmpty(b, TimeOf(b[0]));
      }
    } else {
      var ka, kb := TimeOf(a[0]), TimeOf(b[0]);
      DatedAtNonEmpty(a, ka);
      DatedAtNonEmpty(b, ka);
      DatedAtNonEmpty(a, kb);
      DatedAtNonEmpty(b, kb);
      assert ka == kb;
      assert a[0] == DatedAt(a, ka)[0] == DatedAt(b, ka)[0] == b[0];
      forall k
        ensures DatedAt(a[1..], k) == DatedAt(b[1..], k)
      {
        var x, y := DatedAt(a[1..], k), DatedAt(b[1..], k);
        assert DatedAt(a, k) == DatedAt(b, k);
        if k == ka {
          assert DatedAt(a, k) == [a[0]] + x;
          assert DatedAt(b, k) == [b[0]] + y;
          assert x == ([a[0]] + x)[1..];
          assert y == ([b[0]] + y)[1..];
        } else {
          assert DatedAt(a, k) == [] + x == x;
          assert DatedAt(b, k) == [] + y == y;
        }
      }
      DatedAtDetermines(a[1..], b[1..]);
      assert a == [a[0]] + a[1..];
      assert b == [b[0]] + b[1..];
    }
  }

  /** Any newest-first arrangement of `s` that keeps every time group in
      input order is exactly `Sort(s)`. */
  lemma SortIsTheStableSort(s: seq<Post>, out: seq<Post>)
    requires AllTimed(s) && AllTimed(out)
    requires NewestFirst(out)
    requires forall k :: DatedAt(out, k) == DatedAt(s, k)
    ensures out == Sort(s)
  {
    forall k
      ensures DatedAt(out, k) == DatedAt(Sort(s), k)
    {
      SortDatedAt(s, k);
    }
    DatedAtDetermines(out, Sort(s));
  }

  /** Checking neighbours is enough: a sequence ordered pair by adjacent pair
      is newest first throughout. */
  lemma {:induction false} AdjacentNewestFirst(s: seq<Post>)
    requires AllTimed(s)
    ensures NewestFirst(s) <==> forall i :: 0 <= i < |s| - 1 ==> TimeOf(s[i]) >= TimeOf(s[i + 1])
    decreases |s|
  {
    if s != [] && forall i :: 0 <= i < |s| - 1 ==> TimeOf(s[i]) >= TimeOf(s[i + 1]) {
      var t := s[1..];
      forall i | 0 <= i < |t| - 1
        ensures TimeOf(t[i]) >= TimeOf(t[i + 1])
      {
        assert t[i] == s[i + 1] && t[i + 1] == s[i + 2];
      }
      AdjacentNewestFirst(t);
      forall i, j | 0 <= i < j < |s|
        ensures TimeOf(s[i]) >= TimeOf(s[j])
      {
        if i > 0 {
          assert s[i] == t[i - 1] && s[j] == t[j - 1];
        } else if j > 1 {
          assert s[1] == t[0] && s[j] == t[j - 1];
        }
      }
    }
  }
}
