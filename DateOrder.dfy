/** Ordering entries by date, most recent first. Dates are compared as
    strings; on fixed-width `YYYY-MM-DD` strings the locale-aware comparison
    agrees with character-by-character lexicographic order, which is what
    is modelled here. The sort is stable, as JavaScript's Array.prototype.sort
    is: entries with equal dates keep their relative order. */
module DateOrder {
  import opened Types

  /** `a` comes strictly before `b` in lexicographic order: at the first
      position where they differ `a` has the smaller character, or `a` is a
      proper prefix of `b`. */
  predicate LexLess(a: string, b: string) {
    if a == [] then b != []
    else if b == [] then false
    else if a[0] != b[0] then a[0] < b[0]
    else LexLess(a[1..], b[1..])
  }

  lemma {:induction false} LexLessIrreflexive(a: string)
    ensures !LexLess(a, a)
  {
    if a != [] {
      LexLessIrreflexive(a[1..]);
    }
  }

  lemma {:induction false} LexLessTransitive(a: string, b: string, c: string)
    requires LexLess(a, b) && LexLess(b, c)
    ensures LexLess(a, c)
  {
    if a != [] && b != [] && c != [] && a[0] == b[0] && b[0] == c[0] {
      LexLessTransitive(a[1..], b[1..], c[1..]);
    }
  }

  /** Two different strings are ordered one way or the other. */
  lemma {:induction false} LexLessTotal(a: string, b: string)
    ensures a == b || LexLess(a, b) || LexLess(b, a)
  {
    if a != [] && b != [] && a[0] == b[0] {
      LexLessTotal(a[1..], b[1..]);
      if a[1..] == b[1..] {
        assert a == [a[0]] + a[1..] && b == [b[0]] + b[1..];
      }
    }
  }

  /** "Not later than" is transitive. */
  lemma {:induction false} NotLessTransitive(a: string, b: string, c: string)
    requires !LexLess(a, b) && !LexLess(b, c)
    ensures !LexLess(a, c)
  {
    if LexLess(a, c) {
      LexLessTotal(a, b);
      LexLessTotal(b, c);
      if a == b {
      } else if b == c {
      } else if LexLess(b, a) {
        LexLessTransitive(b, a, c);
      } else {
        assert false;
      }
    }
  }

  /** Every entry's date is at least as late as every later entry's. */
  predicate SortedDesc(s: seq<JournalEntry>) {
    forall i, j :: 0 <= i < j < |s| ==> !LexLess(s[i].date, s[j].date)
  }

  /** Insertion of `x` into a list: it moves before every trailing entry
      whose date is strictly earlier, and stays after every entry with the
      same or a later date. */
  function Insert(x: JournalEntry, s: seq<JournalEntry>): (r: seq<JournalEntry>)
    ensures |r| == |s| + 1
  {
    if s == [] then [x]
    else if LexLess(s[|s| - 1].date, x.date) then Insert(x, s[..|s| - 1]) + [s[|s| - 1]]
    else s + [x]
  }

  /** Insertion adds `x` and nothing else. */
  lemma {:induction false} InsertPermutation(x: JournalEntry, s: seq<JournalEntry>)
    ensures multiset(Insert(x, s)) == multiset(s) + multiset{x}
  {
    if s != [] {
      var init := s[..|s| - 1];
      assert s == init + [s[|s| - 1]];
      if LexLess(s[|s| - 1].date, x.date) {
        InsertPermutation(x, init);
      }
    }
  }

  /** The list stably sorted by descending date. */
  function SortDesc(s: seq<JournalEntry>): (r: seq<JournalEntry>)
    ensures |r| == |s|
  {
    if s == [] then [] else Insert(s[|s| - 1], SortDesc(s[..|s| - 1]))
  }

  /** Appending an entry no later than every entry keeps the order. */
  lemma {:induction false} SortedAppend(s: seq<JournalEntry>, y: JournalEntry)
    requires SortedDesc(s)
    requires forall i :: 0 <= i < |s| ==> !LexLess(s[i].date, y.date)
    ensures SortedDesc(s + [y])
  {
    forall i, j | 0 <= i < j < |s| + 1 ensures !LexLess((s + [y])[i].date, (s + [y])[j].date) {
      if j < |s| {
        assert (s + [y])[i] == s[i] && (s + [y])[j] == s[j];
      }
    }
  }

  lemma {:induction false} InsertSorted(x: JournalEntry, s: seq<JournalEntry>)
    requires SortedDesc(s)
    ensures SortedDesc(Insert(x, s))
  {
    if s == [] {
    } else if LexLess(s[|s| - 1].date, x.date) {
      var init, last := s[..|s| - 1], s[|s| - 1];
      SortedPrefix(s, |s| - 1);
      InsertSorted(x, init);
      InsertPermutation(x, init);
      var r := Insert(x, init);
      forall i | 0 <= i < |r| ensures !LexLess(r[i].date, last.date) {
        assert r[i] in multiset(r);
        if r[i] == x {
          LexLessTotal(last.date, x.date);
          LexLessIrreflexive(x.date);
          if LexLess(x.date, last.date) {
            LexLessTransitive(x.date, last.date, x.date);
          }
        } else {
          assert r[i] in multiset(init);
          var k :| 0 <= k < |init| && init[k] == r[i];
          assert s[k] == r[i];
        }
      }
      SortedAppend(r, last);
    } else {
      forall i | 0 <= i < |s| ensures !LexLess(s[i].date, x.date) {
        if i < |s| - 1 {
          NotLessTransitive(s[i].date, s[|s| - 1].date, x.date);
        }
      }
      SortedAppend(s, x);
    }
  }

  /** The sorted list is ordered by descending date. */
  lemma {:induction false} SortDescSorted(s: seq<JournalEntry>)
    ensures SortedDesc(SortDesc(s))
  {
    if s != [] {
      SortDescSorted(s[..|s| - 1]);
      InsertSorted(s[|s| - 1], SortDesc(s[..|s| - 1]));
    }
  }

  /** The sorted list holds exactly the same entries, as many times each. */
  lemma {:induction false} SortDescPermutation(s: seq<JournalEntry>)
    ensures multiset(SortDesc(s)) == multiset(s)
  {
    if s != [] {
      var init, last := s[..|s| - 1], s[|s| - 1];
      SortDescPermutation(init);
      InsertPermutation(last, SortDesc(init));
      assert SortDesc(s) == Insert(last, SortDesc(init));
      assert s == init + [last];
      assert multiset(s) == multiset(init) + multiset{last};
    }
  }

  lemma {:induction false} SortedPrefix(s: seq<JournalEntry>, k: nat)
    requires SortedDesc(s) && k <= |s|
    ensures SortedDesc(s[..k])
  {
  }

  /** The entries of `s` dated `d`, in their order in `s`. */
  function WithDate(s: seq<JournalEntry>, d: string): (r: seq<JournalEntry>)
    ensures |r| <= |s|
    ensures forall x :: x in r ==> x in s && x.date == d
  {
    if s == [] then []
    else WithDate(s[..|s| - 1], d) + (if s[|s| - 1].date == d then [s[|s| - 1]] else [])
  }

  /** Appending one entry extends the dated entries by it when it has
      that date. */
  lemma {:induction false} WithDateSnoc(q: seq<JournalEntry>, y: JournalEntry, d: string)
    ensures WithDate(q + [y], d) == WithDate(q, d) + (if y.date == d then [y] else [])
  {
    assert (q + [y])[..|q + [y]| - 1] == q;
  }

  /** Two entries with different dates can trade places without changing
      the entries of any one date. */
  lemma {:induction false} SwapLast(q: seq<JournalEntry>, y: JournalEntry, z: JournalEntry, d: string)
    requires y.date != z.date
    ensures WithDate(q + [y] + [z], d) == WithDate(q + [z] + [y], d)
  {
    WithDateSnoc(q, y, d);
    WithDateSnoc(q + [y], z, d);
    WithDateSnoc(q, z, d);
    WithDateSnoc(q + [z], y, d);
  }

  /** Per date, inserting `x` is the same as appending it: `x` goes behind
      every entry with its date. */
  lemma {:induction false} InsertKeepsTies(x: JournalEntry, p: seq<JournalEntry>, d: string)
    ensures WithDate(Insert(x, p), d) == WithDate(p + [x], d)
  {
    if p == [] || !LexLess(p[|p| - 1].date, x.date) {
      assert Insert(x, p) == p + [x];
    } else {
      var init, last := p[..|p| - 1], p[|p| - 1];
      assert last.date != x.date by {
        LexLessIrreflexive(x.date);
      }
      calc {
        WithDate(Insert(x, p), d);
        { assert Insert(x, p) == Insert(x, init) + [last]; }
        WithDate(Insert(x, init) + [last], d);
        { WithDateSnoc(Insert(x, init), last, d);
          InsertKeepsTies(x, init, d);
          WithDateSnoc(init + [x], last, d); }
        WithDate(init + [x] + [last], d);
        { SwapLast(init, x, last, d); }
        WithDate(init + [last] + [x], d);
        { assert init + [last] == p; }
        WithDate(p + [x], d);
      }
    }
  }

  /** The sort is stable: for every date, the entries with that date come
      out in the order they went in. */
  lemma {:induction false} SortDescStable(s: seq<JournalEntry>, d: string)
    ensures WithDate(SortDesc(s), d) == WithDate(s, d)
  {
    if s != [] {
      var init, last := s[..|s| - 1], s[|s| - 1];
      calc {
        WithDate(SortDesc(s), d);
        WithDate(Insert(last, SortDesc(init)), d);
        { InsertKeepsTies(last, SortDesc(init), d); }
        WithDate(SortDesc(init) + [last], d);
        { WithDateSnoc(SortDesc(init), last, d); SortDescStable(init, d); }
        WithDate(init, d) + (if last.date == d then [last] else []);
        { assert s == init + [last]; WithDateSnoc(init, last, d); }
        WithDate(s, d);
      }
    }
  }

  /** A list already ordered by descending date is left as it is. */
  lemma {:induction false} SortDescOfSorted(s: seq<JournalEntry>)
    requires SortedDesc(s)
    ensures SortDesc(s) == s
  {
    if s != [] {
      var init, last := s[..|s| - 1], s[|s| - 1];
      SortedPrefix(s, |s| - 1);
      SortDescOfSorted(init);
      assert SortDesc(s) == Insert(last, init);
      if init != [] {
        assert init[|init| - 1] == s[|s| - 2];
        assert !LexLess(init[|init| - 1].date, last.date);
      }
      assert init + [last] == s;
    }
  }

  /** Where insertion puts `x`: after the first `j` entries, when every
      entry from position `j` on has an earlier date than `x` and the entry
      just before position `j`, if any, does not. */
  lemma {:induction false} InsertAtPosition(x: JournalEntry, p: seq<JournalEntry>, j: nat)
    requires j <= |p|
    requires j == 0 || !LexLess(p[j - 1].date, x.date)
    requires forall k :: j <= k < |p| ==> LexLess(p[k].date, x.date)
    ensures Insert(x, p) == p[..j] + [x] + p[j..]
  {
    if j < |p| {
      var init, last := p[..|p| - 1], p[|p| - 1];
      assert Insert(x, p) == Insert(x, init) + [last];
      assert init[..j] == p[..j];
      assert j > 0 ==> init[j - 1] == p[j - 1];
      InsertAtPosition(x, init, j);
      assert init[j..] + [last] == p[j..];
    } else {
      assert p[..j] == p;
    }
  }

  /** The cells one pass of insertion sort leaves: the entries before `j`
      in place, `x` at `j`, and the rest shifted one to the right. */
  lemma {:induction false} ShiftedIsInsert(x: JournalEntry, p: seq<JournalEntry>, j: nat, a: array<JournalEntry>)
    requires j <= |p| < a.Length
    requires j == 0 || !LexLess(p[j - 1].date, x.date)
    requires forall k :: j <= k < |p| ==> LexLess(p[k].date, x.date)
    requires forall k :: 0 <= k < j ==> a[k] == p[k]
    requires a[j] == x
    requires forall k :: j < k <= |p| ==> a[k] == p[k - 1]
    ensures a[..|p| + 1] == Insert(x, p)
  {
    InsertAtPosition(x, p, j);
    var want := p[..j] + [x] + p[j..];
    forall k | 0 <= k < |p| + 1 ensures a[k] == want[k] {
      if k < j {
        assert want[k] == p[k];
      } else if k > j {
        assert want[k] == p[k - 1];
      }
    }
  }

  /** Shifts the trailing entries of `a[..i]` whose date is earlier than
      `x` one cell to the right, and returns the cell left free for `x`. */
  method ShiftRight(a: array<JournalEntry>, i: nat, x: JournalEntry) returns (j: nat)
    requires i < a.Length
    modifies a
    ensures j <= i
    ensures j == 0 || !LexLess(old(a[j - 1]).date, x.date)
    ensures forall k :: j <= k < i ==> LexLess(old(a[k]).date, x.date)
    ensures forall k :: 0 <= k < j ==> a[k] == old(a[k])
    ensures forall k :: j < k <= i ==> a[k] == old(a[k - 1])
    ensures forall k :: i < k < a.Length ==> a[k] == old(a[k])
  {
    j := i;
    while j > 0 && LexLess(a[j - 1].date, x.date)
      invariant 0 <= j <= i
      invariant forall k :: 0 <= k < j ==> a[k] == old(a[k])
      invariant forall k :: j < k <= i ==> a[k] == old(a[k - 1])
      invariant forall k :: i < k < a.Length ==> a[k] == old(a[k])
      invariant forall k :: j <= k < i ==> LexLess(old(a[k]).date, x.date)
    {
      a[j] := a[j - 1];
      j := j - 1;
    }
  }

  /** Moves `a[i]` left past the trailing entries of `a[..i]` that have an
      earlier date: one pass of insertion sort. */
  method InsertAt(a: array<JournalEntry>, i: nat)
    requires i < a.Length
    modifies a
    ensures a[..i + 1] == Insert(old(a[i]), old(a[..i]))
    ensures forall k :: i < k < a.Length ==> a[k] == old(a[k])
  {
    var x := a[i];
    ghost var p := a[..i];
    var j := ShiftRight(a, i, x);
    a[j] := x;
    ShiftedIsInsert(x, p, j, a);
  }

  /** Sorts the array in place by descending date, as `sort` with the
      comparator `(a, b) => b.date.localeCompare(a.date)` does. */
  method SortByDateDesc(a: array<JournalEntry>)
    modifies a
    ensures a[..] == SortDesc(old(a[..]))
  {
    ghost var orig := a[..];
    var i := 0;
    while i < a.Length
      invariant 0 <= i <= a.Length
      invariant a[..i] == SortDesc(orig[..i])
      invariant forall k :: i <= k < a.Length ==> a[k] == orig[k]
    {
      assert a[i] == orig[i];
      InsertAt(a, i);
      assert orig[..i + 1][..i] == orig[..i];
      assert SortDesc(orig[..i + 1]) == Insert(orig[i], SortDesc(orig[..i]));
      i := i + 1;
    }
    assert a[..] == a[..a.Length] && orig == orig[..a.Length];
  }
}
